// What the formatter prints, the converters read back: for every value and every
// combination of flags, width and precision.
module PrintfLaws {
  import opened Words
  import opened Seqs
  import opened ConvSpec
  import opened Conv
  import opened Numerals
  import opened PrintfSpec

  // ------------------------------------------------------ fields --

  // A field is exactly as wide as asked, or as its contents need.
  lemma FieldWidth(f: Spec, sign: string, prefix: string, body: string)
    ensures var n := |sign| + |prefix| + |body|;
            |Field(f, sign, prefix, body)| == if f.width > n then f.width else n
  {
  }

  // A precision or '-' makes '0' irrelevant.
  lemma ZeroOverridden(f: Spec, sign: string, prefix: string, body: string)
    ensures f.left || f.prec >= 0 ==> Field(f.(zero := !f.zero), sign, prefix, body) == Field(f, sign, prefix, body)
  {
  }

  // The digits of a number fill exactly the places 0 to |Body| - 1 of the body array, so
  // every store is inside its 24 places if and only if the precision is at most 24.
  lemma BodyFitsIff(f: Spec, mag: word, base: nat, upper: bool)
    requires base == 10 || base == 16
    ensures |Body(f, mag, base, upper)| <= TMPMAX <==> f.prec <= TMPMAX
  {
    hide Digits;
    DigitsLength(mag, upper);
  }

  // ------------------------------------------------------ reading fields --

  ghost predicate AllOf(z: string, c: char) { forall k :: 0 <= k < |z| ==> z[k] == c }

  // A field laid out as the converters see it: blanks, a sign, a prefix, zeros and
  // the body, and blanks again.
  ghost predicate LaidOut(t: string, ws: string, sg: string, px: string, z: string, body: string, rest: string) {
    t == ws + sg + px + (z + body) + rest && AllOf(ws, ' ') && AllOf(z, '0') && AllOf(rest, ' ')
  }

  predicate SignOk(sign: string) { sign == "" || sign == "-" || sign == "+" || sign == " " }

  // A blank for a sign reads as white space.
  function ReadSign(sign: string): string { if sign == " " then "" else sign }

  lemma BlankRepeat(k: nat)
    ensures AllOf(Repeat(' ', k), ' ') && AllOf(Repeat(' ', k) + " ", ' ') && AllOf(Repeat('0', k), '0')
    ensures AllOf("", ' ') && AllOf("", '0') && AllOf(" ", ' ')
  {
  }

  ghost predicate Readable(t: string, sg: string, px: string, body: string) {
    exists ws, z, rest :: LaidOut(t, ws, sg, px, z, body, rest)
  }

  lemma FieldLaidOut(f: Spec, sign: string, px: string, body: string)
    requires SignOk(sign)
    ensures Readable(Field(f, sign, px, body), ReadSign(sign), px, body)
  {
    hide AllOf, Repeat, Over, Field, LaidOut;
    var pad := Over(f.width, |body| + |sign| + |px|);
    BlankRepeat(pad);
    var (t, sg) := (Field(f, sign, px, body), ReadSign(sign));
    var ws := if sign == " " then " " else "";
    FieldPieces(f, sign, px, body, pad);
    if f.left {
      assert LaidOut(t, ws, sg, px, "", body, Repeat(' ', pad));
    } else if f.zero && f.prec < 0 {
      assert LaidOut(t, ws, sg, px, Repeat('0', pad), body, "");
    } else {
      assert LaidOut(t, Repeat(' ', pad) + ws, sg, px, "", body, "");
    }
  }

  lemma FieldPieces(f: Spec, sign: string, px: string, body: string, pad: nat)
    requires SignOk(sign) && pad == Over(f.width, |body| + |sign| + |px|)
    ensures var (t, sg, ws) := (Field(f, sign, px, body), ReadSign(sign), if sign == " " then " " else "");
            if f.left then LaidOut(t, ws, sg, px, "", body, Repeat(' ', pad))
            else if f.zero && f.prec < 0 then LaidOut(t, ws, sg, px, Repeat('0', pad), body, "")
            else LaidOut(t, Repeat(' ', pad) + ws, sg, px, "", body, "")
  {
    hide AllOf, Repeat, Over;
    BlankRepeat(pad);
    var (sg, ws) := (ReadSign(sign), if sign == " " then " " else "");
    assert ws + sg == sign;
    Empty(body);
    if f.left {
      assert sign + px + body + Repeat(' ', pad) == ws + sg + px + ("" + body) + Repeat(' ', pad);
    } else if f.zero && f.prec < 0 {
      Assoc(sign + px, Repeat('0', pad), body);
      Empty(sign + px + (Repeat('0', pad) + body));
    } else {
      Assoc(Repeat(' ', pad), ws, sg);
      Empty(Repeat(' ', pad));
      assert Repeat(' ', pad) + sign + px + body == Repeat(' ', pad) + ws + sg + px + ("" + body) + "";
    }
  }

  lemma BlankEnds(rest: string, b: int)
    requires AllOf(rest, ' ')
    ensures rest == "" || (DigitOf(rest[0], b) < 0 && rest[0] != 'x' && rest[0] != 'X')
  {
  }

  lemma BlanksAreSpace(ws: string)
    requires AllOf(ws, ' ')
    ensures forall c <- ws :: IsSpace(c)
  {
  }

  // How the text of a field may be read: in decimal, in hexadecimal with or without a
  // prefix, or with the base left to the prefix or to a leading zero.
  predicate RadixOk(px: string, body: string, base: int, b: int) {
    || (base == 10 && b == 10 && px == "")
    || (base == 16 && b == 16 && px == "")
    || ((base == 0 || base == 16) && b == 16 && (px == "0x" || px == "0X"))
    || (base == 0 && b == 8 && px == "" && body != "" && body[0] == '0')
  }

  lemma WiderRadix(s: string, b: int)
    requires AllDigits(s, b) && b <= 16
    ensures AllDigits(s, 16)
  {
  }

  lemma PrefixHolds(px: string, z: string, body: string, rest: string, base: int, b: int)
    requires RadixOk(px, body, base, b) && AllOf(z, '0') && body != "" && AllDigits(z + body, b) && AllOf(rest, ' ')
    ensures Prefix(px, z + body + rest, base, b)
  {
    hide DigitOf, Prefixed, AllDigits;
    var ds := z + body;
    BlankEnds(rest, b);
    WiderRadix(ds, b);
    NotPrefixed(ds, rest, base);
    assert (ds + rest)[0] == if z != "" then z[0] else body[0];
  }

  lemma FieldSubject(t: string, ws: string, sg: string, px: string, z: string, body: string, rest: string,
                     base: int, b: int)
    requires LaidOut(t, ws, sg, px, z, body, rest) && (sg == "" || sg == "-" || sg == "+")
    requires RadixOk(px, body, base, b) && body != "" && AllDigits(body, b) && b > 0
    ensures Subject(t, ws, sg, px, z + body, rest, base, b)
    ensures Number(z + body, b) == Number(body, b)
  {
    hide DigitOf, AllDigits, Number, Prefix, RadixOk, IsSpace;
    ZerosRead(z, body, b);
    BlankEnds(rest, b);
    BlanksAreSpace(ws);
    PrefixHolds(px, z, body, rest, base, b);
  }

  // The length of a text without its trailing blanks.
  function TrimmedLength(t: string): nat {
    if t != "" && t[|t| - 1] == ' ' then TrimmedLength(t[..|t| - 1]) else |t|
  }

  lemma {:induction false} Trims(front: string, rest: string)
    requires front != "" && front[|front| - 1] != ' ' && AllOf(rest, ' ')
    ensures TrimmedLength(front + rest) == |front|
    decreases |rest|
  {
    var t := front + rest;
    if rest == "" {
      assert t == front;
    } else {
      assert t[|t| - 1] == rest[|rest| - 1] && t[..|t| - 1] == front + rest[..|rest| - 1];
      Trims(front, rest[..|rest| - 1]);
    }
  }

  // The whole of the text is converted, up to its trailing blanks.
  ghost predicate Consumed(t: string, base: int, signed: bool) {
    StrTo(t, base, signed).end == TrimmedLength(t)
  }

  lemma LastIsDigit(s: string, b: int)
    requires s != "" && AllDigits(s, b)
    ensures s[|s| - 1] != ' '
  {
  }

  // The converters' value and range flag for the text.
  ghost predicate Reads(t: string, base: int, signed: bool, v: int) {
    StrTo(t, base, signed).value == v && !StrTo(t, base, signed).erange
  }

  lemma SettleWithin(neg: bool, mag: nat, end: nat, signed: bool)
    ensures signed && (if neg then mag <= 0x8000_0000 else mag <= LONG_MAX) ==>
              Settle(neg, mag, end, signed) == Outcome(if neg then 0 - mag else mag, end, false)
    ensures !signed && !neg && mag <= ULONG_MAX ==> Settle(neg, mag, end, signed) == Outcome(mag, end, false)
  {
  }

  lemma FieldTrims(t: string, ws: string, sg: string, px: string, z: string, body: string, rest: string, b: int)
    requires LaidOut(t, ws, sg, px, z, body, rest) && body != "" && AllDigits(body, b)
    ensures |rest| <= |t| && TrimmedLength(t) == |t| - |rest|
  {
    LastIsDigit(body, b);
    hide AllDigits, AllOf;
    var front := ws + sg + px + (z + body);
    assert front[|front| - 1] == body[|body| - 1];
    Trims(front, rest);
  }

  // A field whose body is digits reads as the body's number, to its end.
  lemma FieldReads(t: string, sg: string, px: string, body: string, base: int, b: int, signed: bool)
    requires Readable(t, sg, px, body) && (sg == "" || sg == "-" || sg == "+")
    requires RadixOk(px, body, base, b) && body != "" && AllDigits(body, b) && b > 0
    requires if !signed then sg == "" && Number(body, b) <= ULONG_MAX
             else Number(body, b) <= if sg == "-" then 0x8000_0000 else LONG_MAX
    ensures Reads(t, base, signed, if sg == "-" then 0 - Number(body, b) else Number(body, b))
    ensures Consumed(t, base, signed)
  {
    hide LaidOut, RadixOk, AllDigits, Number, Subject, Settle, StrTo, TrimmedLength;
    var ws, z, rest :| LaidOut(t, ws, sg, px, z, body, rest);
    FieldTrims(t, ws, sg, px, z, body, rest, b);
    FieldSubject(t, ws, sg, px, z, body, rest, base, b);
    SubjectLaw(t, ws, sg, px, z + body, rest, base, b, signed);
    SubjectLengths(t, ws, sg, px, z + body, rest, base, b);
    SettleWithin(sg == "-", Number(body, b), |t| - |rest|, signed);
  }

  // A field without digits reads as nothing.
  lemma NoDigitsReadNothing(t: string, base: int, signed: bool)
    requires forall k :: 0 <= k < |t| ==> DigitOf(t[k], 36) < 0
    ensures StrTo(t, base, signed) == NOTHING
  {
    hide Number, DigitOf, Radix, SkipPrefix;
    var p := Split(t, base);
    RadixRange(t, p.body, base);
    if ValidBase(base) && p.digits < p.end {
      BaseDigit(t[p.digits], p.radix);
      assert false;
    }
  }

  lemma BaseDigit(c: char, b: int)
    ensures b <= 36 && DigitOf(c, b) >= 0 ==> DigitOf(c, 36) >= 0
  {
  }

  lemma EmptyField(f: Spec, sign: string, base: int, signed: bool)
    requires f.prec >= 0 && SignOk(sign)
    ensures StrTo(Field(f, sign, "", ""), base, signed) == NOTHING
  {
    var t := Field(f, sign, "", "");
    assert forall k :: 0 <= k < |t| ==> t[k] == ' ' || t[k] == '+' || t[k] == '-';
    hide Field, StrTo;
    NoDigitsReadNothing(t, base, signed);
  }

  // ------------------------------------------------------ the round trips --

  lemma BodyReads(f: Spec, mag: nat, base: nat, upper: bool)
    requires 2 <= base <= 16
    ensures AllDigits(Body(f, mag, base, upper), base) && Number(Body(f, mag, base, upper), base) == mag
    ensures Body(f, mag, base, upper) == "" <==> f.prec == 0 && mag == 0
  {
    hide DigitOf, AllDigits, Number, Digits;
    if f.prec == 0 && mag == 0 {
      NoDigits(base);
      EmptyDigits(base);
    } else {
      DigitsRead(mag, base, upper);
      ZerosRead(Repeat('0', Over(f.prec, |Digits(mag, base, upper)|)), Digits(mag, base, upper), base);
    }
  }

  lemma ZeroBody(f: Spec, base: nat, upper: bool)
    requires 2 <= base <= 16
    ensures AllOf(Body(f, 0, base, upper), '0')
  {
  }

  lemma ZerosAreDigits(z: string, b: int)
    requires AllOf(z, '0') && b > 0
    ensures AllDigits(z, b) && Number(z, b) == 0
  {
    hide DigitOf, AllDigits, Number;
    EmptyDigits(b);
    NoDigits(b);
    ZerosRead(z, "", b);
    assert z + "" == z;
  }

  lemma SignIs(f: Spec, negative: bool)
    ensures SignOk(Sign(f, negative)) && (ReadSign(Sign(f, negative)) == "-" <==> negative)
    ensures var sg := ReadSign(Sign(f, negative)); sg == "" || sg == "-" || sg == "+"
    ensures ReadSign("") == ""
  {
  }

  // %d and %i: strtol in base 10 returns the value, whatever the flags, the width and
  // the precision.
  lemma SignedReadsBack(f: Spec, v: int32)
    ensures Reads(SignedText(f, v), 10, true, v)
    ensures if f.prec == 0 && v == 0 then StrTo(SignedText(f, v), 10, true).end == 0
            else Consumed(SignedText(f, v), 10, true)
  {
    hide Field, Body, AllDigits, Number, StrTo, Readable, Sign, ReadSign, TrimmedLength;
    var n: int := v;
    var mag: nat := if n < 0 then -n else n;
    var (sign, body) := (Sign(f, n < 0), Body(f, mag, 10, false));
    SignIs(f, n < 0);
    BodyReads(f, mag, 10, false);
    if body == "" {
      EmptyField(f, sign, 10, true);
    } else {
      FieldLaidOut(f, sign, "", body);
      FieldReads(SignedText(f, v), ReadSign(sign), "", body, 10, 10, true);
    }
  }

  lemma UnsignedReadsBack(f: Spec, w: word)
    ensures Reads(UnsignedText(f, w), 10, false, w)
    ensures if f.prec == 0 && w == 0 then StrTo(UnsignedText(f, w), 10, false).end == 0
            else Consumed(UnsignedText(f, w), 10, false)
  {
    hide Field, Body, AllDigits, Number, StrTo, Readable, TrimmedLength;
    var body := Body(f, w, 10, false);
    BodyReads(f, w, 10, false);
    if body == "" {
      EmptyField(f, "", 10, false);
    } else {
      FieldLaidOut(f, "", "", body);
      FieldReads(UnsignedText(f, w), "", "", body, 10, 10, false);
    }
  }

  lemma HexReads(f: Spec, w: word, upper: bool, px: string, base: int)
    requires px == "" || px == "0x" || px == "0X"
    requires base == 16 || (base == 0 && (px != "" || w == 0))
    requires px != "" ==> Body(f, w, 16, upper) != ""
    ensures Reads(Field(f, "", px, Body(f, w, 16, upper)), base, false, w)
    ensures var t := Field(f, "", px, Body(f, w, 16, upper));
            if f.prec == 0 && w == 0 then StrTo(t, base, false).end == 0 else Consumed(t, base, false)
  {
    hide Field, Body, AllDigits, Number, StrTo, Readable, TrimmedLength;
    var body := Body(f, w, 16, upper);
    BodyReads(f, w, 16, upper);
    FieldLaidOut(f, "", px, body);
    var t := Field(f, "", px, body);
    if body == "" {
      EmptyField(f, "", base, false);
    } else if base == 0 && px == "" {
      ZeroBody(f, 16, upper);
      ZerosAreDigits(body, 8);
      FieldReads(t, "", px, body, base, 8, false);
    } else {
      FieldReads(t, "", px, body, base, 16, false);
    }
  }

  // %x and %X: strtoul in base 16 returns the value, and with '#' also in base 0.
  lemma HexReadsBack(f: Spec, w: word, upper: bool)
    ensures Reads(HexField(f, w, upper), 16, false, w)
    ensures f.hash ==> Reads(HexField(f, w, upper), 0, false, w)
    ensures forall base :: base == 16 || (base == 0 && f.hash) ==>
              if f.prec == 0 && w == 0 then StrTo(HexField(f, w, upper), base, false).end == 0
              else Consumed(HexField(f, w, upper), base, false)
  {
    hide Field, Body, Reads, Consumed, StrTo;
    BodyReads(f, w, 16, upper);
    var px := if f.hash && w != 0 then if upper then "0X" else "0x" else "";
    HexReads(f, w, upper, px, 16);
    if f.hash { HexReads(f, w, upper, px, 0); }
  }

  // The prefix alone reads as its zero.
  lemma PrefixAlone(t: string, ws: string, rest: string, base: int)
    requires t == ws + "0x" + rest && AllOf(ws, ' ') && AllOf(rest, ' ') && (base == 0 || base == 16)
    ensures Reads(t, base, false, 0) && StrTo(t, base, false).end == TrimmedLength(t) - 1
  {
    Trims(ws + "0x", rest);
    var b := if base == 16 then 16 else 8;
    ZerosAreDigits("0", b);
    BlanksAreSpace(ws);
    NoPrefixAlone(rest, base, b);
    hide AllDigits, Number, Prefixed, DigitOf, Settle, StrTo, IsSpace, TrimmedLength;
    assert t == ws + "" + "" + "0" + ("x" + rest);
    assert ("x" + rest)[0] == 'x' && ("0" + ("x" + rest))[0] == '0';
    SubjectLaw(t, ws, "", "", "0", "x" + rest, base, b, false);
    SettleWithin(false, 0, |t| - |"x" + rest|, false);
  }

  lemma NoPrefixAlone(rest: string, base: int, b: int)
    requires AllOf(rest, ' ') && b <= 16
    ensures !Prefixed("0" + ("x" + rest), 0, base) && DigitOf('x', b) < 0
  {
    BlankEnds(rest, 16);
    var t := "0" + ("x" + rest);
    if rest != "" { assert t[2] == rest[0]; }
  }

  // %p: strtoul returns the address in base 16 and in base 0.
  lemma PointerReadsBack(f: Spec, p: word, base: int)
    requires base == 0 || base == 16
    ensures Reads(PointerText(f, p), base, false, p)
    ensures StrTo(PointerText(f, p), base, false).end ==
            TrimmedLength(PointerText(f, p)) - if f.prec == 0 && p == 0 then 1 else 0
  {
    hide Body, Reads, AllOf, TrimmedLength, StrTo;
    BodyReads(f, p, 16, false);
    if Body(f, p, 16, false) != "" {
      HexReads(f, p, false, "0x", base);
    } else {
      var pad := Over(f.width, 2);
      var (t, blanks) := (PointerText(f, p), Repeat(' ', pad));
      BlankRepeat(pad);
      if f.left {
        assert t == "" + "0x" + blanks;
        PrefixAlone(t, "", blanks, base);
      } else {
        assert t == blanks + "0x" + "";
        PrefixAlone(t, blanks, "", base);
      }
    }
  }
}
