// Writing numbers as text, and reading them back.
module Numerals {
  import opened Words
  import opened Seqs
  import opened ConvSpec
  import opened Conv

  type int32 = x: int | -0x8000_0000 <= x < 0x8000_0000

  function DigitChar(d: nat, upper: bool): char
    requires d < 16
  {
    if d < 10 then ('0' as int + d) as char
    else if upper then ('A' as int + d - 10) as char
    else ('a' as int + d - 10) as char
  }

  // The digits of n without leading zeros; none at all for zero.
  function Places(n: nat, base: nat, upper: bool): string
    requires 2 <= base <= 16
  {
    Division(n, base);
    if n == 0 then "" else Places(Div(n, base), base, upper) + [DigitChar(Mod(n, base), upper)]
  }

  function Digits(n: nat, base: nat, upper: bool): string
    requires 2 <= base <= 16
  {
    if n == 0 then "0" else Places(n, base, upper)
  }

  function IntText(v: int): string { if v < 0 then "-" + Digits(-v, 10, false) else Digits(v, 10, false) }

  function HexText(v: nat): string { Digits(v, 16, false) }

  // ------------------------------------------------------ reading back --

  lemma DigitRead(d: nat, base: nat, upper: bool)
    requires d < base <= 16
    ensures DigitOf(DigitChar(d, upper), base) == d
    ensures DigitChar(d, upper) == '0' <==> d == 0
  {
  }

  lemma NumberSnoc(s: string, c: char, b: int)
    requires AllDigits(s, b) && b > 0 && DigitOf(c, b) >= 0
    ensures AllDigits(s + [c], b) && Number(s + [c], b) == Number(s, b) * b + DigitOf(c, b)
  {
    hide DigitOf;
    assert (s + [c])[..|s|] == s;
  }

  lemma {:induction false} PlacesRead(n: nat, base: nat, upper: bool)
    requires 2 <= base <= 16
    ensures AllDigits(Places(n, base, upper), base)
    ensures Number(Places(n, base, upper), base) == n
    ensures n > 0 ==> Places(n, base, upper) != "" && Places(n, base, upper)[0] != '0'
  {
    hide DigitOf, DigitChar, Number, AllDigits, Div, Mod;
    if n == 0 {
      NoDigits(base);
      EmptyDigits(base);
    } else {
      var (q, r) := (Div(n, base), Mod(n, base));
      Division(n, base);
      PlacesRead(q, base, upper);
      DigitRead(r, base, upper);
      NumberSnoc(Places(q, base, upper), DigitChar(r, upper), base);
    }
  }

  lemma EmptyDigits(b: int)
    ensures AllDigits("", b)
  {
  }

  lemma DigitsRead(n: nat, base: nat, upper: bool)
    requires 2 <= base <= 16
    ensures AllDigits(Digits(n, base, upper), base)
    ensures Number(Digits(n, base, upper), base) == n
    ensures Digits(n, base, upper) != "" && (Digits(n, base, upper)[0] == '0' <==> n == 0)
  {
    PlacesRead(n, base, upper);
    if n == 0 {
      NumberSnoc("", '0', base);
      assert "" + ['0'] == "0";
    }
  }

  // Leading zeros do not change a number.
  lemma {:induction false} ZerosRead(z: string, s: string, b: int)
    requires (forall k :: 0 <= k < |z| ==> z[k] == '0') && AllDigits(s, b) && b > 0
    ensures AllDigits(z + s, b) && Number(z + s, b) == Number(s, b)
    decreases |s|, |z|
  {
    hide DigitOf;
    ZeroDigit(b);
    if s != "" {
      var t := s[..|s| - 1];
      ZerosRead(z, t, b);
      NumberSnoc(z + t, s[|s| - 1], b);
      NumberSnoc(t, s[|s| - 1], b);
      assert (z + t) + [s[|s| - 1]] == z + s && t + [s[|s| - 1]] == s;
    } else if z != "" {
      var y := z[..|z| - 1];
      ZerosRead(y, "", b);
      assert y + "" == y && z + "" == y + ['0'];
      NumberSnoc(y, '0', b);
    }
  }

  lemma ZeroDigit(b: int)
    ensures b > 0 ==> DigitOf('0', b) == 0
  {
  }

  // Digits never look like a hexadecimal prefix.
  lemma NotPrefixed(ds: string, rest: string, base: int)
    requires AllDigits(ds, 16) && (ds == "" || rest == "" || (rest[0] != 'x' && rest[0] != 'X'))
    requires ds != ""
    ensures !Prefixed(ds + rest, 0, base)
  {
    LetterX();
    hide DigitOf;
    if |ds| == 1 {
      assert rest != "" ==> (ds + rest)[1] == rest[0];
    } else {
      assert (ds + rest)[1] == ds[1];
    }
  }

  lemma LetterX()
    ensures DigitOf('x', 16) < 0 && DigitOf('X', 16) < 0
  {
  }

  // strtol reads back what itoa writes, and strtoul what utoa_hex writes.
  lemma IntTextReads(v: int32)
    ensures StrTo(IntText(v), 10, true) == Outcome(v, |IntText(v)|, false)
  {
    hide AllDigits, Number, StrTo, Digits;
    var m: int := v;
    var mag: nat := if m < 0 then -m else m;
    DigitsRead(mag, 10, false);
    var ds := Digits(mag, 10, false);
    var sg := if v < 0 then "-" else "";
    assert IntText(v) == "" + sg + "" + ds + "";
    SubjectLaw(IntText(v), "", sg, "", ds, "", 10, 10, true);
  }

  lemma HexTextReads(v: word)
    ensures StrTo(HexText(v), 16, false) == Outcome(v, |HexText(v)|, false)
  {
    hide AllDigits, Number, StrTo, Digits, Prefixed;
    DigitsRead(v, 16, false);
    var ds := Digits(v, 16, false);
    NotPrefixed(ds, "", 16);
    assert ds == "" + "" + "" + ds + "" && ds + "" == ds;
    SubjectLaw(ds, "", "", "", ds, "", 16, 16, false);
  }

  // ------------------------------------------------------ how long --

  function Power(b: nat, k: nat): nat { if k == 0 then 1 else b * Power(b, k - 1) }

  lemma {:induction false} PlacesLength(n: nat, base: nat, upper: bool, k: nat)
    requires 2 <= base <= 16 && n < Power(base, k)
    ensures |Places(n, base, upper)| <= k
    decreases n
  {
    hide DigitChar, Div, Mod;
    if n > 0 {
      assert k > 0;
      var m := Power(base, k - 1);
      hide Power;
      Division(n, base);
      QuotientBelow(n, base, m);
      PlacesLength(Div(n, base), base, upper, k - 1);
    }
  }

  lemma QuotientBelow(n: nat, base: nat, m: nat)
    requires base > 0 && n < base * m
    ensures Div(n, base) < m
  {
    var q := n / base;
    assert n == base * q + n % base;
    if q >= m { MulMono(m, q, base); }
  }

  lemma TenPlaces()
    ensures Power(10, 10) == 10_000_000_000
  {
    assert Power(10, 5) == 100_000;
    assert Power(10, 7) == 10_000_000;
  }

  lemma EightPlaces()
    ensures Power(16, 8) == TWO32
  {
    assert Power(16, 4) == 0x1_0000;
  }

  lemma DigitsLength(n: word, upper: bool)
    ensures |Digits(n, 10, upper)| <= 10 && |Digits(n, 16, upper)| <= 8
  {
    TenPlaces();
    EightPlaces();
    PlacesLength(n, 10, upper, 10);
    PlacesLength(n, 16, upper, 8);
  }

  // Twelve bytes always hold a decimal with its sign and terminator, nine a hexadecimal.
  lemma TextLengths(v: int32, w: word)
    ensures |IntText(v)| + 1 <= 12 && |HexText(w)| + 1 <= 9
  {
    hide Digits;
    var m: int := v;
    DigitsLength(if m < 0 then -m else m, false);
    DigitsLength(w, false);
  }

  // ------------------------------------------------------ in place --

  function Reversed(s: string): (r: string)
    ensures |r| == |s|
    ensures forall k :: 0 <= k < |s| ==> r[k] == s[|s| - 1 - k]
  {
    seq(|s|, k requires 0 <= k < |s| => s[|s| - 1 - k])
  }

  lemma ReversedSnoc(s: string, c: char)
    ensures Reversed(s + [c]) == [c] + Reversed(s)
  {
  }

  method Reverse(buf: array<char>, len: nat)
    requires len <= buf.Length
    modifies buf
    ensures buf[..len] == Reversed(old(buf[..len])) && buf[len..] == old(buf[len..])
  {
    var p2: int, p: int := 0, len - 1;
    while p2 < p
      invariant 0 <= p2 && p2 + p == len - 1 && p2 <= p + 1
      invariant forall k :: 0 <= k < len && !(p2 <= k <= p) ==> buf[k] == old(buf[len - 1 - k])
      invariant forall k :: p2 <= k <= p ==> buf[k] == old(buf[k])
      invariant buf[len..] == old(buf[len..])
    {
      var temp := buf[p2];
      buf[p2] := buf[p];
      buf[p] := temp;
      p2, p := p2 + 1, p - 1;
    }
  }

  // The digits of val, lowest first, stored from the start of buf.
  method Extract(val0: nat, base: nat, buf: array<char>) returns (k: nat)
    requires 2 <= base <= 16 && |Places(val0, base, false)| < buf.Length
    modifies buf
    ensures k == |Places(val0, base, false)|
    ensures Reversed(buf[..k]) == Places(val0, base, false)
    ensures buf[k..] == old(buf[..])[k..]
  {
    hide DigitChar, Div, Mod, Reversed;
    k := 0;
    var val := val0;
    assert buf[..0] == "" && Reversed("") == "";
    assert Places(val0, base, false) + "" == Places(val0, base, false);
    while val > 0
      invariant 0 <= k < buf.Length && k + |Places(val, base, false)| == |Places(val0, base, false)|
      invariant Places(val, base, false) + Reversed(buf[..k]) == Places(val0, base, false)
      invariant buf[k..] == old(buf[k..])
    {
      Division(val, base);
      ghost var was := buf[..k];
      ghost var c := DigitChar(Mod(val, base), false);
      ReversedSnoc(was, c);
      Assoc(Places(Div(val, base), base, false), [c], Reversed(was));
      buf[k] := DigitChar(Mod(val, base), false);
      val := Div(val, base);
      k := k + 1;
      assert buf[..k] == was + [c];
    }
    assert "" + Reversed(buf[..k]) == Reversed(buf[..k]);
  }

  // What a caller's buffer holds after a text and its terminator.
  ghost predicate Holds(now: seq<char>, was: seq<char>, text: string) {
    |now| == |was| > |text| && now == text + "\0" + was[|text| + 1..]
  }

  // Terminate the text of length k and turn it round.
  method Finish(buf: array<char>, k: nat)
    requires k < buf.Length
    modifies buf
    ensures Holds(buf[..], old(buf[..]), Reversed(old(buf[..k])))
  {
    buf[k] := '\0';
    assert buf[..k] == old(buf[..k]);
    ghost var tail := buf[k..];
    assert tail == "\0" + old(buf[k + 1..]);
    Reverse(buf, k);
    assert buf[..] == buf[..k] + buf[k..];
  }

  lemma HoldsOver(now: seq<char>, mid: seq<char>, was: seq<char>, text: string)
    requires Holds(now, mid, text) && |mid| == |was| && mid[|text| + 1..] == was[|text| + 1..]
    ensures Holds(now, was, text)
  {
  }

  method PutZero(buf: array<char>)
    requires buf.Length > 1
    modifies buf
    ensures Holds(buf[..], old(buf[..]), "0")
  {
    ghost var was := buf[..];
    buf[0] := '0';
    buf[1] := '\0';
    assert buf[..] == "0" + "\0" + was[2..];
  }

  // The sign, after the digits it will come before.
  method PutMinus(buf: array<char>, k0: nat) returns (k: nat)
    requires k0 < buf.Length
    modifies buf
    ensures k == k0 + 1 && Reversed(buf[..k]) == "-" + Reversed(old(buf[..k0]))
    ensures buf[k..] == old(buf[..])[k..]
  {
    hide Reversed;
    ReversedSnoc(buf[..k0], '-');
    buf[k0] := '-';
    k := k0 + 1;
    assert buf[..k] == old(buf[..k0]) + ['-'];
  }

  method Itoa(v: int32, buf: array<char>)
    requires |IntText(v)| < buf.Length
    modifies buf
    ensures Holds(buf[..], old(buf[..]), IntText(v))
  {
    hide Places, DigitChar, Reversed, Holds;
    if v == 0 {
      PutZero(buf);
      return;
    }
    var val := if v < 0 then (0 - v) % TWO32 else v;
    var k := Extract(val, 10, buf);
    if v < 0 {
      k := PutMinus(buf, k);
    }
    ghost var mid := buf[..];
    assert mid[k + 1..] == old(buf[..])[k + 1..];
    Finish(buf, k);
    HoldsOver(buf[..], mid, old(buf[..]), IntText(v));
  }

  method UtoaHex(v0: word, buf: array<char>)
    requires |HexText(v0)| < buf.Length
    modifies buf
    ensures Holds(buf[..], old(buf[..]), HexText(v0))
  {
    hide Places, DigitChar, Reversed, Holds;
    if v0 == 0 {
      PutZero(buf);
      return;
    }
    var k := Extract(v0, 16, buf);
    ghost var mid := buf[..];
    assert mid[k + 1..] == old(buf[..])[k + 1..];
    Finish(buf, k);
    HoldsOver(buf[..], mid, old(buf[..]), HexText(v0));
  }
}
