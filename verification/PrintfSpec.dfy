// The formatting engine's meaning: what a format and its arguments render to.
module PrintfSpec {
  import opened Words
  import opened Seqs
  import opened ConvSpec
  import opened Numerals

  const INT_MAX: nat := 0x7FFF_FFFF
  const TMPMAX: nat := 24

  // A C string's characters, without the terminator.
  type cstring = s: string | '\0' !in s

  datatype Arg = Int(i: int32) | Uns(w: word) | Chr(c: char) | Str(s: cstring) | Ptr(p: word)

  // The part of a conversion between '%' and its letter; prec < 0 when not given.
  datatype Spec = Spec(left: bool, zero: bool, plus: bool, space: bool, hash: bool, width: nat, prec: int)

  const PLAIN: Spec := Spec(false, false, false, false, false, 0, -1)

  // ------------------------------------------------------ reading a spec --

  predicate IsFlag(c: char) { c == '-' || c == '0' || c == '+' || c == ' ' || c == '#' }

  function SetFlag(f: Spec, c: char): Spec {
    if c == '-' then f.(left := true)
    else if c == '0' then f.(zero := true)
    else if c == '+' then f.(plus := true)
    else if c == ' ' then f.(space := true)
    else if c == '#' then f.(hash := true)
    else f
  }

  function Flags(s: string, i: nat, f: Spec): (r: (Spec, nat))
    requires i <= |s|
    ensures i <= r.1 <= |s|
    decreases |s| - i
  {
    if i < |s| && IsFlag(s[i]) then Flags(s, i + 1, SetFlag(f, s[i])) else (f, i)
  }

  function Decimal(s: string, i: nat): nat
    requires i <= |s|
  {
    Number(s[i..SkipDigits(s, i, 10)], 10)
  }

  function Precision(s: string, i: nat): (r: (int, nat))
    requires i <= |s|
    ensures i <= r.1 <= |s|
  {
    if i < |s| && s[i] == '.' then (Decimal(s, i + 1), SkipDigits(s, i + 1, 10)) else (-1, i)
  }

  function ParseSpec(s: string, i: nat): (r: (Spec, nat))
    requires i <= |s|
    ensures i <= r.1 <= |s|
  {
    var (f, j) := Flags(s, i, PLAIN);
    var k := SkipDigits(s, j, 10);
    var (p, l) := Precision(s, k);
    (f.(width := Decimal(s, j), prec := p), l)
  }

  // ------------------------------------------------------ one conversion --

  function Over(a: int, b: int): nat { if a > b then a - b else 0 }

  // Sign, prefix and body brought to the width: zeros go inside, blanks outside, and
  // '-' or a precision overrides '0'.
  function Field(f: Spec, sign: string, prefix: string, body: string): string {
    var pad := Over(f.width, |body| + |sign| + |prefix|);
    if f.left then sign + prefix + body + Repeat(' ', pad)
    else if f.zero && f.prec < 0 then sign + prefix + Repeat('0', pad) + body
    else Repeat(' ', pad) + sign + prefix + body
  }

  // The digits of a number, brought to the precision with zeros; nothing at all for
  // a zero with precision zero.
  function Body(f: Spec, mag: nat, base: nat, upper: bool): string
    requires 2 <= base <= 16
  {
    var ds := if f.prec == 0 && mag == 0 then "" else Digits(mag, base, upper);
    Repeat('0', Over(f.prec, |ds|)) + ds
  }

  function Sign(f: Spec, negative: bool): string {
    if negative then "-" else if f.plus then "+" else if f.space then " " else ""
  }

  function SignedText(f: Spec, v: int): string {
    Field(f, Sign(f, v < 0), "", Body(f, if v < 0 then -v else v, 10, false))
  }

  function UnsignedText(f: Spec, w: nat): string { Field(f, "", "", Body(f, w, 10, false)) }

  function HexField(f: Spec, w: nat, upper: bool): string {
    Field(f, "", if f.hash && w != 0 then if upper then "0X" else "0x" else "", Body(f, w, 16, upper))
  }

  function PointerText(f: Spec, p: nat): string { Field(f, "", "0x", Body(f, p, 16, false)) }

  // A string ignores '0', and its precision cuts it.
  function StringText(f: Spec, s: string): string {
    var t := if 0 <= f.prec < |s| then s[..f.prec] else s;
    var pad := Over(f.width, |t|);
    if f.left then t + Repeat(' ', pad) else Repeat(' ', pad) + t
  }

  predicate TakesArg(c: char) {
    c == 'd' || c == 'i' || c == 'u' || c == 'x' || c == 'X' || c == 'c' || c == 's' || c == 'p'
  }

  predicate IsNumeric(c: char) { c == 'd' || c == 'i' || c == 'u' || c == 'x' || c == 'X' || c == 'p' }

  // The argument is of the type the conversion reads.
  predicate Fits(c: char, a: Arg) {
    if c == 'd' || c == 'i' then a.Int?
    else if c == 'u' || c == 'x' || c == 'X' then a.Uns?
    else if c == 'c' then a.Chr?
    else if c == 's' then a.Str? && |a.s| <= INT_MAX
    else if c == 'p' then a.Ptr?
    else true
  }

  function Piece(f: Spec, c: char, a: Arg): string
    requires TakesArg(c) && Fits(c, a)
  {
    if c == 'd' || c == 'i' then SignedText(f, a.i)
    else if c == 'u' then UnsignedText(f, a.w)
    else if c == 'x' || c == 'X' then HexField(f, a.w, c == 'X')
    else if c == 'c' then Field(f, "", "", [a.c])
    else if c == 's' then StringText(f, a.s)
    else PointerText(f, a.p)
  }

  // Conversions without an argument: "%%", and unsupported letters left as they are.
  function Bare(c: char): string { if c == '%' then "%" else ['%', c] }

  // ------------------------------------------------------ a whole format --

  // The conversion at s[i], just past its '%', can be carried out: the format does
  // not end inside it, its numbers fit an int, and its argument is there.
  predicate SpecOk(f: Spec, c: char, args: seq<Arg>) {
    && f.width <= INT_MAX && f.prec <= INT_MAX
    && (IsNumeric(c) ==> f.prec <= TMPMAX)
    && (TakesArg(c) ==> args != [] && Fits(c, args[0]))
  }

  function After(c: char, args: seq<Arg>): seq<Arg> {
    if TakesArg(c) && args != [] then args[1..] else args
  }

  function Converted(f: Spec, c: char, args: seq<Arg>): string
    requires SpecOk(f, c, args)
  {
    if TakesArg(c) then Piece(f, c, args[0]) else Bare(c)
  }

  predicate WellFormed(s: string, i: nat, args: seq<Arg>)
    requires i <= |s|
    decreases |s| - i
  {
    if i == |s| then true
    else if s[i] != '%' then WellFormed(s, i + 1, args)
    else
      var (f, j) := ParseSpec(s, i + 1);
      j < |s| && SpecOk(f, s[j], args) && WellFormed(s, j + 1, After(s[j], args))
  }

  function Render(s: string, i: nat, args: seq<Arg>): string
    requires i <= |s| && WellFormed(s, i, args)
    decreases |s| - i
  {
    if i == |s| then ""
    else if s[i] != '%' then [s[i]] + Render(s, i + 1, args)
    else
      var (f, j) := ParseSpec(s, i + 1);
      Converted(f, s[j], args) + Render(s, j + 1, After(s[j], args))
  }

  function Format(fmt: string, args: seq<Arg>): string
    requires WellFormed(fmt, 0, args)
  {
    Render(fmt, 0, args)
  }
}
