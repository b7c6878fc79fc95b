// The formatting engine as it runs: output through a character sink that counts past
// the end of its buffer, fields filled by loops, a format scanned in place.
module Printf {
  import opened Words
  import opened Seqs
  import opened ConvSpec
  import opened Conv
  import opened Numerals
  import opened PrintfSpec

  // ------------------------------------------------------ the sink --

  // A buffer after `text` went through the sink: its first n - 1 places hold the
  // first n - 1 characters, everything else is as it was.
  ghost predicate Filled(now: seq<char>, was: seq<char>, text: string, n: nat) {
    && |now| == |was|
    && forall k :: 0 <= k < |now| ==> now[k] == if k < |text| && k < n - 1 then text[k] else was[k]
  }

  lemma FilledMore(now: seq<char>, was: seq<char>, text: string, n: nat, c: char)
    requires Filled(now, was, text, n) && n <= |now|
    ensures var next := if |text| < n - 1 then now[|text| := c] else now;
            Filled(next, was, text + [c], n)
  {
  }

  // out_t, with the whole text sent so far as a ghost.
  class Out {
    const buf: array?<char>
    const n: nat
    const sink: bool
    var count: nat
    var uart: string
    ghost var text: string
    ghost const was: seq<char>
    ghost const sent: string

    ghost predicate Valid()
      reads this, buf
    {
      && count == |text|
      && uart == (if sink then sent + text else sent)
      && (n > 0 && !sink ==> buf != null)
      && (buf != null ==> (sink || n <= buf.Length) && Filled(buf[..], was, text, if sink then 0 else n))
    }

    constructor (buf: array?<char>, n: nat, sink: bool, uart: string)
      requires !sink && n > 0 ==> buf != null && n <= buf.Length
      requires sink ==> buf == null
      ensures Valid() && text == "" && this.buf == buf && this.n == n && this.sink == sink && sent == uart
      ensures buf != null ==> was == buf[..]
    {
      this.buf, this.n, this.sink, this.uart := buf, n, sink, uart;
      count, text, sent := 0, "", uart;
      was := if buf == null then "" else buf[..];
    }

    method OutCh(c: char)
      requires Valid()
      modifies this, buf
      ensures Valid() && text == old(text) + [c]
    {
      if sink {
        uart := uart + [c];
      } else {
        if buf != null {
          FilledMore(buf[..], was, text, n, c);
        }
        if buf != null && n != 0 && count < n - 1 {
          buf[count] := c;
        }
      }
      text := text + [c];
      count := count + 1;
    }

    method OutRep(c: char, k0: int)
      requires Valid()
      modifies this, buf
      ensures Valid() && text == old(text) + Repeat(c, Over(k0, 0))
    {
      hide Filled;
      var k := k0;
      ghost var done := 0;
      assert Repeat(c, 0) == "";
      while k > 0
        invariant Valid() && 0 <= done && done + Over(k, 0) == Over(k0, 0)
        invariant text == old(text) + Repeat(c, done)
      {
        RepeatSnoc(c, done);
        Assoc(old(text), Repeat(c, done), [c]);
        OutCh(c);
        k, done := k - 1, done + 1;
      }
    }

    method OutAll(s: string)
      requires Valid()
      modifies this, buf
      ensures Valid() && text == old(text) + s
    {
      hide Filled;
      for i := 0 to |s|
        invariant Valid() && text == old(text) + s[..i]
      {
        assert s[..i + 1] == s[..i] + [s[i]];
        Assoc(old(text), s[..i], [s[i]]);
        OutCh(s[i]);
      }
      assert s[..|s|] == s;
    }

    // The characters of a field's body, read from its array.
    method OutBody(fd: FieldT)
      requires Valid() && fd.Valid() && fd.body != buf
      modifies this, buf
      ensures Valid() && text == old(text) + fd.Text()
      ensures fd.Valid() && fd.Text() == old(fd.Text())
    {
      hide Filled;
      var body := fd.body;
      assert body[..0] == "";
      for i := 0 to fd.blen
        invariant Valid() && fd.Valid() && body[..] == old(body[..]) && text == old(text) + body[..i]
      {
        assert body[..i + 1] == body[..i] + [body[i]];
        Assoc(old(text), body[..i], [body[i]]);
        OutCh(body[i]);
      }
      assert fd.Text() == body[..][..fd.blen];
    }

    method OutHead(fd: FieldT)
      requires Valid() && fd.Valid()
      modifies this, buf
      ensures Valid() && text == old(text) + fd.SignText() + fd.prefix
      ensures fd.body != buf ==> fd.Text() == old(fd.Text())
    {
      hide Filled;
      if fd.sign != '\0' { OutCh(fd.sign); }
      if |fd.prefix| != 0 {
        OutCh(fd.prefix[0]);
        OutCh(fd.prefix[1]);
        assert fd.prefix == [fd.prefix[0]] + [fd.prefix[1]];
        Assoc(old(text) + fd.SignText(), [fd.prefix[0]], [fd.prefix[1]]);
      }
    }

    method EmitField(f: Spec, fd: FieldT)
      requires Valid() && fd.Valid() && fd.body != buf
      modifies this, buf
      ensures Valid() && text == old(text) + Field(f, fd.SignText(), fd.prefix, fd.Text())
    {
      hide Filled, Repeat, Over, Field, FieldT.SignText, FieldT.Text;
      ghost var (w, sg, px, body) := (text, fd.SignText(), fd.prefix, fd.Text());
      var total := fd.Total();
      var pad := if f.width > total then f.width - total else 0;
      var zeros := 0;
      FieldIs(f, sg, px, body, pad);
      if f.zero && !f.left && f.prec < 0 { zeros := pad; pad := 0; }
      OverZero(pad);
      OverZero(zeros);
      if !f.left { OutRep(' ', pad); }
      OutHead(fd);
      OutRep('0', zeros);
      OutBody(fd);
      if f.left { OutRep(' ', pad); }
      if f.left {
        Empty(w);
        Regroup(w, "", sg, px, Repeat('0', zeros), body, Repeat(' ', pad));
      } else {
        Regroup(w, Repeat(' ', pad), sg, px, Repeat('0', zeros), body, "");
        Empty(w + Repeat(' ', pad) + sg + px + Repeat('0', zeros) + body);
      }
    }
  }

  lemma OverZero(a: nat)
    ensures Over(a, 0) == a
  {
  }

  // A field as blanks, sign, prefix, zeros, body and blanks, some of them empty.
  lemma FieldIs(f: Spec, sg: string, px: string, body: string, pad: nat)
    requires pad == if f.width > |sg| + |px| + |body| then f.width - (|sg| + |px| + |body|) else 0
    ensures Field(f, sg, px, body) ==
            if f.left then "" + sg + px + Repeat('0', 0) + body + Repeat(' ', pad)
            else if f.zero && f.prec < 0 then Repeat(' ', 0) + sg + px + Repeat('0', pad) + body + ""
            else Repeat(' ', pad) + sg + px + Repeat('0', 0) + body + ""
  {
  }

  lemma RepeatSnoc(c: char, k: nat)
    ensures Repeat(c, k + 1) == Repeat(c, k) + [c]
  {
  }

  // ------------------------------------------------------ fields --

  // field_t: digits in a fixed array, a sign ('\0' for none) and a prefix.
  class FieldT {
    const body: array<char>
    var blen: nat
    var sign: char
    var prefix: string

    ghost predicate Valid()
      reads this
    {
      body.Length == TMPMAX && blen <= TMPMAX && (prefix == "" || |prefix| == 2)
    }

    ghost function Text(): string
      requires Valid()
      reads this, body
    {
      body[..blen]
    }

    function SignText(): string
      reads this
    {
      if sign == '\0' then "" else [sign]
    }

    method Total() returns (total: nat)
      requires Valid()
      ensures total == |SignText()| + |prefix| + |Text()|
    {
      total := blen + (if sign != '\0' then 1 else 0) + |prefix|;
    }

    constructor ()
      ensures Valid() && fresh(body) && Text() == "" && sign == '\0' && prefix == ""
    {
      body := new char[TMPMAX](_ => '\0');
      blen, sign, prefix := 0, '\0', "";
    }

    method MakeNumber(mag: word, base: nat, upper: bool, f: Spec, sign: char, prefixed: bool)
      requires Valid() && (base == 10 || base == 16) && f.prec <= TMPMAX
      modifies this, body
      ensures Valid() && Text() == Body(f, mag, base, upper) && this.sign == sign
      ensures prefix == if prefixed && Text() != "" then if upper then "0X" else "0x" else ""
    {
      hide Digits, Repeat, Reversed;
      DigitsLength(mag, upper);
      var tmp := new char[TMPMAX];
      var k := 0;
      if !(f.prec == 0 && mag == 0) {
        k := LowDigits(mag, base, upper, tmp);
      }
      ghost var ds := if f.prec == 0 && mag == 0 then "" else Digits(mag, base, upper);
      NoReversed();
      assert tmp[..0] == "";
      var zeros := if f.prec > k then f.prec - k else 0;
      PutZeros(zeros);
      PutDigits(tmp, k);
      this.sign := sign;
      prefix := if prefixed && blen > 0 then if upper then "0X" else "0x" else "";
    }

    method PutZeros(zeros: nat)
      requires Valid() && zeros <= TMPMAX
      modifies this`blen, body
      ensures Valid() && Text() == Repeat('0', zeros)
    {
      blen := 0;
      for z := 0 to zeros
        invariant Valid() && blen == z && forall k :: 0 <= k < z ==> body[k] == '0'
      {
        body[blen] := '0';
        blen := blen + 1;
      }
    }

    method PutDigits(tmp: array<char>, k0: nat)
      requires Valid() && tmp != body && k0 <= tmp.Length && blen + k0 <= TMPMAX
      modifies this`blen, body
      ensures Valid() && Text() == old(Text()) + Reversed(tmp[..k0])
    {
      var k := k0;
      while k > 0
        invariant 0 <= k <= k0 && blen == old(blen) + k0 - k
        invariant body[..old(blen)] == old(Text()) && tmp[..] == old(tmp[..])
        invariant forall x :: old(blen) <= x < blen ==> body[x] == tmp[k0 - 1 - (x - old(blen))]
      {
        k := k - 1;
        body[blen] := tmp[k];
        blen := blen + 1;
      }
      assert Text() == body[..old(blen)] + body[old(blen)..blen];
    }
  }

  lemma NoReversed()
    ensures Reversed("") == ""
  {
  }

  // The digits of mag, lowest first; at least one of them.
  method LowDigits(mag0: nat, base: nat, upper: bool, tmp: array<char>) returns (k: nat)
    requires 2 <= base <= 16 && |Digits(mag0, base, upper)| <= tmp.Length
    modifies tmp
    ensures k == |Digits(mag0, base, upper)|
    ensures Reversed(tmp[..k]) == Digits(mag0, base, upper)
  {
    hide DigitChar, Div, Mod, Reversed;
    var mag := mag0;
    Division(mag, base);
    FirstDigit(mag, base, upper);
    tmp[0] := DigitChar(Mod(mag, base), upper);
    mag := Div(mag, base);
    k := 1;
    ReversedSnoc("", tmp[0]);
    NoReversed();
    assert tmp[..1] == "" + [tmp[0]];
    while mag > 0
      invariant 0 < k <= tmp.Length
      invariant Places(mag, base, upper) + Reversed(tmp[..k]) == Digits(mag0, base, upper)
    {
      Division(mag, base);
      ghost var was := tmp[..k];
      ghost var c := DigitChar(Mod(mag, base), upper);
      ReversedSnoc(was, c);
      Assoc(Places(Div(mag, base), base, upper), [c], Reversed(was));
      assert |Places(mag, base, upper)| + k <= tmp.Length;
      tmp[k] := DigitChar(Mod(mag, base), upper);
      mag := Div(mag, base);
      k := k + 1;
      assert tmp[..k] == was + [c];
    }
  }

  lemma FirstDigit(mag: nat, base: nat, upper: bool)
    requires 2 <= base <= 16
    ensures Mod(mag, base) < 16
    ensures Digits(mag, base, upper) == Places(Div(mag, base), base, upper) + [DigitChar(Mod(mag, base), upper)]
  {
    Division(mag, base);
    DigitRead(0, base, upper);
    if mag == 0 { SmallQuot(base); }
  }

  lemma SmallQuot(base: nat)
    requires base > 1
    ensures Div(0, base) == 0 && Mod(0, base) == 0
  {
  }

  // ------------------------------------------------------ scanning a format --

  method ScanFlags(s: string, i: nat) returns (f: Spec, p: nat)
    requires i <= |s|
    ensures (f, p) == Flags(s, i, PLAIN)
  {
    hide IsFlag, SetFlag;
    NulIsNoFlag();
    f, p := PLAIN, i;
    while true
      invariant i <= p <= |s| && Flags(s, p, f) == Flags(s, i, PLAIN)
      decreases |s| - p
    {
      var c := At(s, p);
      FlagCases(f, c);
      if c == '-' { f := f.(left := true); }
      else if c == '0' { f := f.(zero := true); }
      else if c == '+' { f := f.(plus := true); }
      else if c == ' ' { f := f.(space := true); }
      else if c == '#' { f := f.(hash := true); }
      else { break; }
      p := p + 1;
    }
  }

  lemma NulIsNoFlag()
    ensures !IsFlag('\0')
  {
  }

  lemma FlagCases(f: Spec, c: char)
    ensures IsFlag(c) <==> c == '-' || c == '0' || c == '+' || c == ' ' || c == '#'
    ensures c == '-' ==> SetFlag(f, c) == f.(left := true)
    ensures c == '0' ==> SetFlag(f, c) == f.(zero := true)
    ensures c == '+' ==> SetFlag(f, c) == f.(plus := true)
    ensures c == ' ' ==> SetFlag(f, c) == f.(space := true)
    ensures c == '#' ==> SetFlag(f, c) == f.(hash := true)
  {
  }

  lemma DecimalDigit(c: char)
    ensures DigitOf(c, 10) >= 0 <==> '0' <= c <= '9'
    ensures '0' <= c <= '9' ==> DigitOf(c, 10) == c as int - '0' as int
  {
  }

  method ScanNumber(s: string, i: nat) returns (n: nat, p: nat)
    requires i <= |s|
    ensures p == SkipDigits(s, i, 10) && n == Decimal(s, i)
  {
    hide DigitOf, Number;
    n, p := 0, i;
    NoDigits(10);
    NulIsNothing(10);
    assert s[i..i] == "";
    DecimalDigit(At(s, p));
    while '0' <= At(s, p) <= '9'
      invariant i <= p <= |s| && SkipDigits(s, p, 10) == SkipDigits(s, i, 10)
      invariant forall k :: i <= k < p ==> DigitOf(s[k], 10) >= 0
      invariant AllDigits(s[i..p], 10) && n == Number(s[i..p], 10)
      invariant DigitOf(At(s, p), 10) >= 0 <==> '0' <= At(s, p) <= '9'
      decreases |s| - p
    {
      DecimalDigit(s[p]);
      DigitsSoFar(s, i, p + 1, 10);
      NumberGrows(s, i, p, 10);
      n := n * 10 + (s[p] as int - '0' as int);
      p := p + 1;
      DecimalDigit(At(s, p));
    }
  }

  method ScanSpec(s: string, i: nat) returns (f: Spec, p: nat)
    requires i <= |s|
    ensures (f, p) == ParseSpec(s, i)
  {
    hide Flags, Decimal, SkipDigits;
    f, p := ScanFlags(s, i);
    var w;
    var prec: int := -1;
    w, p := ScanNumber(s, p);
    if At(s, p) == '.' {
      p := p + 1;
      prec, p := ScanNumber(s, p);
    }
    f := f.(width := w, prec := prec);
  }

  method SLen(s: cstring) returns (n: nat)
    ensures n == |s|
  {
    n := 0;
    while At(s, n) != '\0'
      invariant n <= |s|
      decreases |s| - n
    {
      n := n + 1;
    }
  }

  // ------------------------------------------------------ one conversion --

  method PutSigned(o: Out, f: Spec, v: int32)
    requires o.Valid() && f.prec <= TMPMAX
    modifies o, o.buf
    ensures o.Valid() && o.text == old(o.text) + SignedText(f, v)
  {
    hide Field, Body, Filled;
    var fd := new FieldT();
    var mag: word, sign: char := 0, '-';
    if v < 0 {
      mag := (0 - v) % TWO32;
    } else {
      sign := if f.plus then '+' else if f.space then ' ' else '\0';
      mag := v;
    }
    fd.MakeNumber(mag, 10, false, f, sign, false);
    o.EmitField(f, fd);
  }

  method PutUnsigned(o: Out, f: Spec, v: word)
    requires o.Valid() && f.prec <= TMPMAX
    modifies o, o.buf
    ensures o.Valid() && o.text == old(o.text) + UnsignedText(f, v)
  {
    hide Field, Body, Filled;
    var fd := new FieldT();
    fd.MakeNumber(v, 10, false, f, '\0', false);
    o.EmitField(f, fd);
  }

  method PutHex(o: Out, f: Spec, v: word, c: char)
    requires o.Valid() && f.prec <= TMPMAX
    modifies o, o.buf
    ensures o.Valid() && o.text == old(o.text) + HexField(f, v, c == 'X')
  {
    hide Field, Body, Filled;
    var fd := new FieldT();
    if v != 0 { BodyOfNonzero(f, v, 16, c == 'X'); }
    fd.MakeNumber(v, 16, c == 'X', f, '\0', f.hash && v != 0);
    o.EmitField(f, fd);
  }

  lemma BodyOfNonzero(f: Spec, v: nat, base: nat, upper: bool)
    requires 2 <= base <= 16 && v != 0
    ensures Body(f, v, base, upper) != ""
  {
    hide Div, Mod, DigitChar;
  }

  method PutPointer(o: Out, f: Spec, v: word)
    requires o.Valid() && f.prec <= TMPMAX
    modifies o, o.buf
    ensures o.Valid() && o.text == old(o.text) + PointerText(f, v)
  {
    hide Field, Body, Filled;
    var fd := new FieldT();
    fd.MakeNumber(v, 16, false, f, '\0', true);
    fd.prefix := "0x";
    o.EmitField(f, fd);
  }

  method PutChar(o: Out, f: Spec, c: char)
    requires o.Valid()
    modifies o, o.buf
    ensures o.Valid() && o.text == old(o.text) + Field(f, "", "", [c])
  {
    hide Field, Filled;
    var fd := new FieldT();
    fd.body[0] := c;
    fd.blen := 1;
    assert fd.Text() == [c];
    o.EmitField(f, fd);
  }

  method PutString(o: Out, f: Spec, s: cstring)
    requires o.Valid()
    modifies o, o.buf
    ensures o.Valid() && o.text == old(o.text) + StringText(f, s)
  {
    hide Repeat, Filled, StringText, Over;
    var len := SLen(s);
    if f.prec >= 0 && f.prec < len { len := f.prec; }
    var pad := if f.width > len then f.width - len else 0;
    OverZero(pad);
    StringIs(f, s, len, pad);
    Assoc(o.text, s[..len], Repeat(' ', pad));
    Assoc(o.text, Repeat(' ', pad), s[..len]);
    if !f.left { o.OutRep(' ', pad); }
    o.OutAll(s[..len]);
    if f.left { o.OutRep(' ', pad); }
  }

  lemma StringIs(f: Spec, s: string, len: nat, pad: nat)
    requires len == if 0 <= f.prec < |s| then f.prec else |s|
    requires pad == if f.width > len then f.width - len else 0
    ensures StringText(f, s) == if f.left then s[..len] + Repeat(' ', pad) else Repeat(' ', pad) + s[..len]
  {
    assert s[..|s|] == s;
  }

  method PutPiece(o: Out, f: Spec, c: char, a: Arg)
    requires o.Valid() && TakesArg(c) && Fits(c, a) && (IsNumeric(c) ==> f.prec <= TMPMAX)
    modifies o, o.buf
    ensures o.Valid() && o.text == old(o.text) + Piece(f, c, a)
  {
    hide Field, Filled, SignedText, UnsignedText, HexField, PointerText, StringText;
    match c {
      case 'd' => PutSigned(o, f, a.i);
      case 'i' => PutSigned(o, f, a.i);
      case 'u' => PutUnsigned(o, f, a.w);
      case 'x' => PutHex(o, f, a.w, c);
      case 'X' => PutHex(o, f, a.w, c);
      case 'c' => PutChar(o, f, a.c);
      case 's' => PutString(o, f, a.s);
      case _ => PutPointer(o, f, a.p);
    }
  }

  method PutBare(o: Out, c: char)
    requires o.Valid()
    modifies o, o.buf
    ensures o.Valid() && o.text == old(o.text) + Bare(c)
  {
    hide Filled;
    o.OutCh('%');
    if c != '%' {
      o.OutCh(c);
      Assoc(old(o.text), ['%'], [c]);
    }
  }

  // ------------------------------------------------------ whole formats --

  lemma RenderPlain(s: string, i: nat, args: seq<Arg>)
    requires i < |s| && s[i] != '%' && WellFormed(s, i, args)
    ensures WellFormed(s, i + 1, args)
    ensures Render(s, i, args) == [s[i]] + Render(s, i + 1, args)
  {
  }

  lemma RenderConversion(s: string, i: nat, args: seq<Arg>)
    requires i < |s| && s[i] == '%' && WellFormed(s, i, args)
    ensures var (f, j) := ParseSpec(s, i + 1);
            && j < |s| && SpecOk(f, s[j], args) && WellFormed(s, j + 1, After(s[j], args))
            && Render(s, i, args) == Converted(f, s[j], args) + Render(s, j + 1, After(s[j], args))
  {
    hide ParseSpec, Converted, SpecOk;
  }

  method PutConversion(o: Out, f: Spec, c: char, args: seq<Arg>) returns (rest: seq<Arg>)
    requires o.Valid() && SpecOk(f, c, args)
    modifies o, o.buf
    ensures o.Valid() && rest == After(c, args)
    ensures o.text == old(o.text) + Converted(f, c, args)
  {
    hide Piece, Bare, Filled;
    if TakesArg(c) {
      PutPiece(o, f, c, args[0]);
    } else {
      PutBare(o, c);
    }
    rest := After(c, args);
  }

  method DoFormat(o: Out, fmt: cstring, args: seq<Arg>) returns (r: nat)
    requires o.Valid() && o.text == "" && WellFormed(fmt, 0, args)
    modifies o, o.buf
    ensures o.Valid() && o.text == Format(fmt, args) && r == |o.text|
  {
    hide Filled, Render, WellFormed;
    var p, rest := 0, args;
    Empty(Format(fmt, args));
    while At(fmt, p) != '\0'
      invariant p <= |fmt| && o.Valid() && WellFormed(fmt, p, rest)
      invariant o.text + Render(fmt, p, rest) == Format(fmt, args)
      decreases |fmt| - p
    {
      if fmt[p] != '%' {
        RenderPlain(fmt, p, rest);
        Assoc(o.text, [fmt[p]], Render(fmt, p + 1, rest));
        o.OutCh(fmt[p]);
        p := p + 1;
      } else {
        p, rest := FormatOne(o, fmt, p, rest);
      }
    }
    RenderEnd(fmt, rest);
    Empty(o.text);
    r := o.count;
  }

  // The conversion at fmt[p].
  method FormatOne(o: Out, fmt: cstring, p: nat, args: seq<Arg>) returns (next: nat, rest: seq<Arg>)
    requires o.Valid() && p < |fmt| && fmt[p] == '%' && WellFormed(fmt, p, args)
    modifies o, o.buf
    ensures o.Valid() && p < next <= |fmt| && WellFormed(fmt, next, rest)
    ensures o.text + Render(fmt, next, rest) == old(o.text) + Render(fmt, p, args)
  {
    hide *;
    RenderConversion(fmt, p, args);
    ghost var was := o.text;
    var f, j := ScanSpec(fmt, p + 1);
    ghost var text := Converted(f, fmt[j], args);
    rest := PutConversion(o, f, fmt[j], args);
    next := j + 1;
    Assoc(was, text, Render(fmt, next, rest));
  }

  lemma RenderEnd(s: string, args: seq<Arg>)
    requires WellFormed(s, |s|, args)
    ensures Render(s, |s|, args) == ""
  {
  }

  // The truncation contract: the buffer holds as much of the text as fits before a
  // terminator, nothing else is touched, and the result is the full length.
  ghost predicate Truncated(now: seq<char>, was: seq<char>, text: string, n: nat) {
    && |now| == |was|
    && (n == 0 ==> now == was)
    && (n > 0 ==>
          var m := if |text| < n then |text| else n - 1;
          m < |was| && now == text[..m] + "\0" + was[m + 1..])
  }

  lemma Terminated(now: seq<char>, was: seq<char>, text: string, n: nat)
    requires Filled(now, was, text, n) && 0 < n <= |now|
    ensures Truncated(now[(if |text| < n then |text| else n - 1) := '\0'], was, text, n)
  {
  }

  method Vsnprintf(buf: array?<char>, n: nat, fmt: cstring, args: seq<Arg>) returns (r: nat)
    requires n > 0 ==> buf != null && n <= buf.Length
    requires WellFormed(fmt, 0, args) && |Format(fmt, args)| <= INT_MAX
    modifies buf
    ensures buf != null ==> Truncated(buf[..], old(buf[..]), Format(fmt, args), n)
    ensures r == |Format(fmt, args)|
  {
    hide Format, WellFormed;
    var o := new Out(buf, n, false, "");
    r := DoFormat(o, fmt, args);
    if n != 0 {
      Terminated(buf[..], o.was, o.text, n);
      buf[if o.count < n then o.count else n - 1] := '\0';
    } else if buf != null {
      assert buf[..] == old(buf[..]);
    }
  }

  // The same text, whole, on the console.
  method Vprintf(console: string, fmt: cstring, args: seq<Arg>) returns (r: nat, out: string)
    requires WellFormed(fmt, 0, args) && |Format(fmt, args)| <= INT_MAX
    ensures out == console + Format(fmt, args) && r == |Format(fmt, args)|
  {
    hide Format, WellFormed;
    var o := new Out(null, 0, true, console);
    r := DoFormat(o, fmt, args);
    out := o.uart;
  }
}
