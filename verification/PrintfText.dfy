// What each conversion prints, as the C standard words it: exactly one text for every
// spec and value.
module PrintfText {
  import opened Words
  import opened Seqs
  import opened ConvSpec
  import opened Numerals
  import opened NumeralLaws
  import opened PrintfSpec
  import opened PrintfLaws

  // ------------------------------------------------------ numerals --

  // A numeral of at least `prec` digits (one when no precision is given), written in
  // the table's digits, that denotes mag and has no more zeros in front than it needs.
  ghost predicate Numeral(s: string, prec: int, mag: nat, base: nat, upper: bool)
    requires 2 <= base <= 16
  {
    var least := if prec < 0 then 1 else prec;
    && Written(s, base, upper) && AllDigits(s, base) && Number(s, base) == mag
    && |s| >= least && (s != "" && s[0] == '0' ==> |s| == least)
  }

  // Zeros in front of the places of mag.
  function Padded(k: nat, mag: nat, base: nat, upper: bool): string
    requires 2 <= base <= 16
  {
    Repeat('0', k) + Places(mag, base, upper)
  }

  function Least(prec: int): nat { if prec < 0 then 1 else prec }

  lemma {:induction false} Stripped(s: string, base: nat, upper: bool) returns (k: nat)
    requires 2 <= base <= 16 && Written(s, base, upper)
    ensures AllDigits(s, base) && s == Padded(k, Number(s, base), base, upper)
    ensures k > 0 ==> s != "" && s[0] == '0'
  {
    hide Table, DigitOf, DigitChar, Places, AllDigits, Number;
    WrittenDigits(s, base, upper);
    if s == "" || s[0] != '0' {
      WrittenIsPlaces(s, base, upper);
      k := 0;
      assert Repeat('0', 0) + s == s;
    } else {
      var t := s[1..];
      var m := Stripped(t, base, upper);
      k := m + 1;
      assert s == "0" + t;
      ZerosRead("0", t, base);
      assert "0" + Repeat('0', m) == Repeat('0', k);
      Assoc("0", Repeat('0', m), Places(Number(t, base), base, upper));
    }
  }

  lemma NumeralForm(s: string, prec: int, mag: nat, base: nat, upper: bool)
    requires 2 <= base <= 16 && Numeral(s, prec, mag, base, upper)
    ensures s == Padded(Over(Least(prec), |Places(mag, base, upper)|), mag, base, upper)
  {
    hide Written, AllDigits, Number, Places;
    var k := Stripped(s, base, upper);
  }

  lemma BodyForm(f: Spec, mag: nat, base: nat, upper: bool)
    requires 2 <= base <= 16
    ensures Body(f, mag, base, upper) == Padded(Over(Least(f.prec), |Places(mag, base, upper)|), mag, base, upper)
  {
    hide Div, Mod, DigitChar;
    if mag != 0 {
      assert Places(mag, base, upper) != "";
    } else if f.prec != 0 {
      var z := Over(f.prec, 1);
      assert Repeat('0', z) + "0" == Repeat('0', z + 1);
    }
  }

  lemma BodyWritten(f: Spec, mag: nat, base: nat, upper: bool)
    requires 2 <= base <= 16
    ensures Written(Body(f, mag, base, upper), base, upper)
  {
    BodyForm(f, mag, base, upper);
    PlacesWritten(mag, base, upper);
    TableDigit(0, base, upper);
    assert DigitChar(0, upper) == '0';
    hide Table, DigitChar, Body, Places;
  }

  // The digits printed are the one numeral of that precision.
  lemma BodyIff(s: string, f: Spec, mag: nat, base: nat, upper: bool)
    requires 2 <= base <= 16
    ensures s == Body(f, mag, base, upper) <==> Numeral(s, f.prec, mag, base, upper)
  {
    assert mag == 0 ==> Places(mag, base, upper) == "";
    hide Written, AllDigits, Number, Places, Body, DigitOf;
    BodyForm(f, mag, base, upper);
    BodyWritten(f, mag, base, upper);
    BodyReads(f, mag, base, upper);
    PlacesRead(mag, base, upper);
    if Numeral(s, f.prec, mag, base, upper) { NumeralForm(s, f.prec, mag, base, upper); }
  }

  // ------------------------------------------------------ fields --

  // t is as wide as asked, or as its contents need, with the contents to the left and
  // blanks after them, or to the right with blanks before them, or, with zero padding,
  // the head to the left, the body to the right and zeros between.
  ghost predicate Justified(t: string, f: Spec, head: string, body: string) {
    var n := |head| + |body|;
    && |t| == (if f.width > n then f.width else n)
    && if f.left then t[..n] == head + body && AllOf(t[n..], ' ')
       else if f.zero && f.prec < 0 then
         t[..|head|] == head && AllOf(t[|head|..|t| - |body|], '0') && t[|t| - |body|..] == body
       else AllOf(t[..|t| - n], ' ') && t[|t| - n..] == head + body
  }

  // The three layouts, each exactly one text.
  lemma ToTheLeft(t: string, s: string, pad: nat)
    ensures t == s + Repeat(' ', pad) <==> |t| == |s| + pad && t[..|s|] == s && AllOf(t[|s|..], ' ')
  {
  }

  lemma ToTheRight(t: string, s: string, pad: nat)
    ensures t == Repeat(' ', pad) + s <==> |t| == |s| + pad && AllOf(t[..pad], ' ') && t[pad..] == s
  {
  }

  lemma Apart(t: string, head: string, body: string, pad: nat)
    ensures t == head + Repeat('0', pad) + body <==>
            && |t| == |head| + pad + |body| && t[..|head|] == head
            && AllOf(t[|head|..|t| - |body|], '0') && t[|t| - |body|..] == body
  {
    if |t| == |head| + pad + |body| {
      assert t == t[..|head|] + t[|head|..|t| - |body|] + t[|t| - |body|..];
    }
  }

  lemma FieldIff(t: string, f: Spec, sign: string, px: string, body: string)
    ensures t == Field(f, sign, px, body) <==> Justified(t, f, sign + px, body)
  {
    var head := sign + px;
    var pad := Over(f.width, |head + body|);
    hide AllOf, Repeat;
    ToTheLeft(t, head + body, pad);
    ToTheRight(t, head + body, pad);
    Apart(t, head, body, pad);
    Assoc(Repeat(' ', pad), head, body);
    Assoc(Repeat(' ', pad), sign, px);
  }

  // ------------------------------------------------------ conversions --

  ghost predicate PrintsNumber(t: string, f: Spec, head: string, mag: nat, base: nat, upper: bool)
    requires 2 <= base <= 16
  {
    exists body :: Numeral(body, f.prec, mag, base, upper) && Justified(t, f, head, body)
  }

  // '-' for a negative value, and '+' before a blank for any other.
  predicate SignIs(head: string, f: Spec, v: int) {
    && (head == "-" <==> v < 0)
    && (head == "+" <==> v >= 0 && f.plus)
    && (head == " " <==> v >= 0 && !f.plus && f.space)
    && (head == "" <==> v >= 0 && !f.plus && !f.space)
  }

  // What the conversion of a must print.
  ghost predicate Prints(t: string, f: Spec, c: char, a: Arg)
    requires TakesArg(c) && Fits(c, a)
  {
    match a
    case Int(v) => exists head :: SignIs(head, f, v) && PrintsNumber(t, f, head, if v < 0 then 0 - v else v, 10, false)
    case Uns(w) =>
      if c == 'u' then PrintsNumber(t, f, "", w, 10, false)
      else if c == 'x' then PrintsNumber(t, f, if f.hash && w != 0 then "0x" else "", w, 16, false)
      else PrintsNumber(t, f, if f.hash && w != 0 then "0X" else "", w, 16, true)
    case Ptr(p) => PrintsNumber(t, f, "0x", p, 16, false)
    case Chr(ch) => Justified(t, f, "", [ch])
    case Str(s) =>
      exists cut :: cut <= s && |cut| == (if 0 <= f.prec < |s| then f.prec else |s|)
                    && Justified(t, f.(zero := false), "", cut)
  }

  lemma NumberIff(t: string, f: Spec, sign: string, px: string, mag: nat, base: nat, upper: bool)
    requires 2 <= base <= 16
    ensures t == Field(f, sign, px, Body(f, mag, base, upper)) <==> PrintsNumber(t, f, sign + px, mag, base, upper)
  {
    hide Numeral, Justified, Body, Field;
    var body := Body(f, mag, base, upper);
    BodyIff(body, f, mag, base, upper);
    FieldIff(t, f, sign, px, body);
    if PrintsNumber(t, f, sign + px, mag, base, upper) {
      var b :| Numeral(b, f.prec, mag, base, upper) && Justified(t, f, sign + px, b);
      BodyIff(b, f, mag, base, upper);
    }
  }

  lemma SignedIff(t: string, f: Spec, v: int32)
    ensures t == SignedText(f, v) <==>
            exists head :: SignIs(head, f, v)
                           && PrintsNumber(t, f, head, var n: int := v; if n < 0 then 0 - n else n, 10, false)
  {
    hide Field, Body, PrintsNumber;
    var n: int := v;
    var sign := Sign(f, n < 0);
    assert sign + "" == sign;
    NumberIff(t, f, sign, "", if n < 0 then 0 - n else n, 10, false);
    assert SignIs(sign, f, v);
    assert forall head :: SignIs(head, f, v) ==> head == sign;
  }

  lemma StringIff(t: string, f: Spec, s: string)
    ensures t == StringText(f, s) <==>
            exists cut :: cut <= s && |cut| == (if 0 <= f.prec < |s| then f.prec else |s|)
                          && Justified(t, f.(zero := false), "", cut)
  {
    hide Justified, Repeat;
    var cut := if 0 <= f.prec < |s| then s[..f.prec] else s;
    assert cut <= s;
    assert forall x :: x <= s && |x| == |cut| ==> x == cut;
    FieldIff(t, f.(zero := false), "", "", cut);
    StringIsField(f, cut);
    assert "" + "" == "";
  }

  lemma StringIsField(f: Spec, cut: string)
    ensures Field(f.(zero := false), "", "", cut) ==
            if f.left then cut + Repeat(' ', Over(f.width, |cut|)) else Repeat(' ', Over(f.width, |cut|)) + cut
  {
    hide Repeat;
    assert "" + "" + cut == cut;
    Empty(Repeat(' ', Over(f.width, |cut|)));
  }

  // For every spec, letter and argument, one text and no other is printed.
  lemma PieceIff(t: string, f: Spec, c: char, a: Arg)
    requires TakesArg(c) && Fits(c, a)
    ensures t == Piece(f, c, a) <==> Prints(t, f, c, a)
  {
    hide PrintsNumber, Justified, Field, Body, SignedText, StringText;
    match a
    case Int(v) => SignedIff(t, f, v);
    case Uns(w) =>
      if c == 'u' {
        assert "" + "" == "";
        NumberIff(t, f, "", "", w, 10, false);
      } else {
        var px := if f.hash && w != 0 then if c == 'X' then "0X" else "0x" else "";
        assert "" + px == px;
        NumberIff(t, f, "", px, w, 16, c == 'X');
      }
    case Ptr(p) => assert "" + "0x" == "0x"; NumberIff(t, f, "", "0x", p, 16, false);
    case Chr(ch) => FieldIff(t, f, "", "", [ch]); assert "" + "" == "";
    case Str(s) => StringIff(t, f, s);
  }
}
