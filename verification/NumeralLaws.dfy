// Which string stands for a number: numerals against the literal digit tables, unique
// for every value.
module NumeralLaws {
  import opened Words
  import opened ConvSpec
  import opened Conv
  import opened Numerals

  const LOWER: string := "0123456789abcdef"
  const UPPER: string := "0123456789ABCDEF"

  function Table(upper: bool): (t: string)
    ensures |t| == 16
  {
    if upper then UPPER else LOWER
  }

  // Digits of the base, in the case asked for.
  predicate Written(s: string, base: nat, upper: bool)
    requires base <= 16
  {
    forall k :: 0 <= k < |s| ==> s[k] in Table(upper)[..base]
  }

  // Only zero begins with a zero.
  predicate Canonical(s: string, base: nat, upper: bool)
    requires base <= 16
  {
    s != "" && Written(s, base, upper) && (s[0] == '0' ==> |s| == 1)
  }

  // ------------------------------------------------------ the tables --

  lemma TableAt(d: nat, upper: bool)
    requires d < 16
    ensures DigitChar(d, upper) == Table(upper)[d]
  {
  }

  lemma InTable(c: char, base: nat, upper: bool)
    requires base <= 16 && c in Table(upper)[..base]
    ensures 0 <= DigitOf(c, base) < base && DigitChar(DigitOf(c, base), upper) == c
  {
    var d :| 0 <= d < base && Table(upper)[d] == c;
    TableAt(d, upper);
    DigitRead(d, base, upper);
    hide Table, DigitOf, DigitChar;
  }

  lemma TableDigit(d: nat, base: nat, upper: bool)
    requires d < base <= 16
    ensures DigitChar(d, upper) in Table(upper)[..base]
  {
    TableAt(d, upper);
    hide Table, DigitChar;
    assert Table(upper)[..base][d] == Table(upper)[d];
  }

  lemma {:induction false} WrittenDigits(s: string, base: nat, upper: bool)
    requires base <= 16 && Written(s, base, upper)
    ensures AllDigits(s, base)
  {
    hide Table, DigitOf;
    forall k | 0 <= k < |s| ensures DigitOf(s[k], base) >= 0 { InTable(s[k], base, upper); }
  }

  // ------------------------------------------------------ written --

  lemma {:induction false} PlacesWritten(n: nat, base: nat, upper: bool)
    requires 2 <= base <= 16
    ensures Written(Places(n, base, upper), base, upper)
  {
    hide Table, DigitChar, Div, Mod;
    if n != 0 {
      Division(n, base);
      PlacesWritten(Div(n, base), base, upper);
      TableDigit(Mod(n, base), base, upper);
    }
  }

  lemma DigitsCanonical(n: nat, base: nat, upper: bool)
    requires 2 <= base <= 16
    ensures Canonical(Digits(n, base, upper), base, upper)
  {
    PlacesWritten(n, base, upper);
    DigitsRead(n, base, upper);
    TableDigit(0, base, upper);
    hide Table, DigitOf;
  }

  // ------------------------------------------------------ unique --

  lemma DivModOf(q: nat, d: nat, base: nat)
    requires d < base
    ensures Div(q * base + d, base) == q && Mod(q * base + d, base) == d
  {
    var n := q * base + d;
    Division(n, base);
    hide Div, Mod;
    if Div(n, base) < q { MulMono(Div(n, base) + 1, q, base); }
    if Div(n, base) > q { MulMono(q + 1, Div(n, base), base); }
  }

  lemma PlacesSnoc(n: nat, q: nat, d: nat, base: nat, upper: bool)
    requires 2 <= base <= 16 && d < base && n == q * base + d && n > 0
    ensures Places(n, base, upper) == Places(q, base, upper) + [DigitChar(d, upper)]
  {
    hide Div, Mod, DigitChar;
    DivModOf(q, d, base);
  }

  // A written numeral without a leading zero is the one its number has.
  lemma {:induction false} WrittenIsPlaces(s: string, base: nat, upper: bool)
    requires 2 <= base <= 16 && Written(s, base, upper) && (s != "" ==> s[0] != '0')
    ensures AllDigits(s, base) && Places(Number(s, base), base, upper) == s
    decreases |s|
  {
    WrittenDigits(s, base, upper);
    if s == "" {
      NoDigits(base);
    } else {
      var (t, c) := (s[..|s| - 1], s[|s| - 1]);
      assert s == t + [c] && Written(t, base, upper);
      assert c in Table(upper)[..base];
      hide Table, DigitOf, DigitChar, Places, Number, AllDigits, Written;
      WrittenIsPlaces(t, base, upper);
      OneMore(t, c, base, upper);
    }
  }

  lemma OneMore(t: string, c: char, base: nat, upper: bool)
    requires 2 <= base <= 16 && AllDigits(t, base) && Places(Number(t, base), base, upper) == t
    requires c in Table(upper)[..base] && (t == "" ==> c != '0') && AllDigits(t + [c], base)
    ensures Places(Number(t + [c], base), base, upper) == t + [c]
  {
    hide Table, DigitOf, DigitChar, Places, Number, AllDigits;
    InTable(c, base, upper);
    NumberSnoc(t, c, base);
    NonZero(t, c, base, upper);
    PlacesSnoc(Number(t + [c], base), Number(t, base), DigitOf(c, base), base, upper);
  }

  lemma NonZero(t: string, c: char, base: nat, upper: bool)
    requires 2 <= base <= 16 && AllDigits(t, base) && Places(Number(t, base), base, upper) == t
    requires c in Table(upper)[..base] && (t == "" ==> c != '0')
    ensures DigitOf(c, base) >= 0 && Number(t, base) * base + DigitOf(c, base) > 0
  {
    InTable(c, base, upper);
    DigitRead(DigitOf(c, base), base, upper);
    hide Table, DigitOf, DigitChar, Div, Mod, Number, AllDigits;
    if t != "" {
      assert Number(t, base) > 0;
      MulMono(1, Number(t, base), base);
    }
  }

  // One string and no other is the numeral of n: written in the table's digits, without
  // a leading zero, and denoting n.
  lemma DigitsIff(s: string, n: nat, base: nat, upper: bool)
    requires 2 <= base <= 16
    ensures s == Digits(n, base, upper) <==>
            Canonical(s, base, upper) && AllDigits(s, base) && Number(s, base) == n
  {
    hide Table, DigitOf, AllDigits, Number;
    DigitsCanonical(n, base, upper);
    DigitsRead(n, base, upper);
    if Canonical(s, base, upper) && AllDigits(s, base) && Number(s, base) == n {
      if s[0] == '0' {
        assert s == "" + ['0'];
        NoDigits(base);
        EmptyDigits(base);
        ZeroDigit(base);
        NumberSnoc("", '0', base);
      } else {
        WrittenIsPlaces(s, base, upper);
        assert n != 0;
      }
    }
  }

  // ------------------------------------------------------ itoa and utoa_hex --

  // itoa writes a decimal numeral without leading zeros, after a minus sign exactly
  // when the value is negative, and nothing else.
  lemma IntTextIff(v: int32, s: string)
    ensures s == IntText(v) <==>
            var ds := if v < 0 && s != "" then s[1..] else s;
            && (v < 0 ==> s != "" && s[0] == '-')
            && Canonical(ds, 10, false) && AllDigits(ds, 10)
            && Number(ds, 10) == if v < 0 then 0 - v else v
  {
    hide Canonical, AllDigits, Number, Digits;
    var n: int := v;
    if v < 0 && s != "" {
      assert s == [s[0]] + s[1..];
      DigitsIff(s[1..], 0 - n, 10, false);
    } else if v >= 0 {
      DigitsIff(s, n, 10, false);
    }
  }

  // utoa_hex writes a lower-case numeral without leading zeros, and nothing else.
  lemma HexTextIff(v: word, s: string)
    ensures s == HexText(v) <==>
            Canonical(s, 16, false) && AllDigits(s, 16) && Number(s, 16) == v
  {
    hide Canonical, AllDigits, Number, Digits;
    DigitsIff(s, v, 16, false);
  }
}
