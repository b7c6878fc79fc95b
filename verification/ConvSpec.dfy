// Reading numbers from text: the conversion C99 section 7.20.1.4 asks of strtol and
// strtoul, over unbounded integers.
module ConvSpec {
  const ULONG_MAX: nat := 0xFFFF_FFFF
  const LONG_MAX: nat := 0x7FFF_FFFF
  const LONG_MIN: int := -0x8000_0000

  predicate IsSpace(c: char) {
    c == ' ' || c == '\t' || c == '\n' || c == '\U{000B}' || c == '\U{000C}' || c == '\r'
  }

  predicate IsSign(c: char) { c == '+' || c == '-' }

  // The value of a digit in the given base, or -1.
  function DigitOf(c: char, base: int): int {
    var v := if '0' <= c <= '9' then c as int - '0' as int
             else if 'a' <= c <= 'z' then c as int - 'a' as int + 10
             else if 'A' <= c <= 'Z' then c as int - 'A' as int + 10
             else -1;
    if v < base then v else -1
  }

  predicate ValidBase(base: int) { base == 0 || 2 <= base <= 36 }

  // ------------------------------------------------------ where things are --

  function SkipSpace(s: string, i: nat): (j: nat)
    requires i <= |s|
    ensures i <= j <= |s|
    ensures forall k :: i <= k < j ==> IsSpace(s[k])
    ensures j == |s| || !IsSpace(s[j])
    decreases |s| - i
  {
    if i < |s| && IsSpace(s[i]) then SkipSpace(s, i + 1) else i
  }

  function SkipSign(s: string, i: nat): (j: nat)
    requires i <= |s|
    ensures i <= j <= |s|
  {
    if i < |s| && IsSign(s[i]) then i + 1 else i
  }

  // A hexadecimal prefix counts only when a hexadecimal digit follows it.
  predicate HexAhead(s: string, p: nat) {
    p + 2 < |s| && s[p] == '0' && (s[p + 1] == 'x' || s[p + 1] == 'X') && DigitOf(s[p + 2], 16) >= 0
  }

  predicate Prefixed(s: string, p: nat, base: int) { (base == 0 || base == 16) && HexAhead(s, p) }

  function Radix(s: string, p: nat, base: int): int {
    if Prefixed(s, p, base) then 16
    else if base != 0 then base
    else if p < |s| && s[p] == '0' then 8 else 10
  }

  function SkipPrefix(s: string, p: nat, base: int): (q: nat)
    requires p <= |s|
    ensures p <= q <= |s|
  {
    if Prefixed(s, p, base) then p + 2 else p
  }

  function SkipDigits(s: string, i: nat, b: int): (j: nat)
    requires i <= |s|
    ensures i <= j <= |s|
    ensures forall k :: i <= k < j ==> DigitOf(s[k], b) >= 0
    ensures j == |s| || DigitOf(s[j], b) < 0
    decreases |s| - i
  {
    if i < |s| && DigitOf(s[i], b) >= 0 then SkipDigits(s, i + 1, b) else i
  }

  // ------------------------------------------------------ what they denote --

  predicate AllDigits(s: string, b: int) { forall k :: 0 <= k < |s| ==> DigitOf(s[k], b) >= 0 }

  function Number(s: string, b: int): nat
    requires AllDigits(s, b) && 0 < b
    decreases |s|
  {
    if s == "" then 0
    else Number(s[..|s| - 1], b) * b + DigitOf(s[|s| - 1], b)
  }

  // A converted value, the offset of the first character not converted, and whether
  // the true value was out of range.
  datatype Outcome = Outcome(value: int, end: nat, erange: bool)

  const NOTHING: Outcome := Outcome(0, 0, false)

  // An exact magnitude and sign, brought into range.
  function Settle(neg: bool, mag: nat, end: nat, signed: bool): Outcome {
    var v: int := if neg then 0 - mag else mag;
    if signed then
      if v < LONG_MIN then Outcome(LONG_MIN, end, true)
      else if v > LONG_MAX then Outcome(LONG_MAX, end, true)
      else Outcome(v, end, false)
    else if mag > ULONG_MAX then Outcome(ULONG_MAX, end, true)
    else Outcome(v % (ULONG_MAX + 1), end, false)
  }

  // The sign, prefix and digits of the subject of s.
  datatype Parts = Parts(sign: nat, body: nat, digits: nat, end: nat, radix: int)

  function Split(s: string, base: int): (p: Parts)
    ensures p.sign <= p.body <= p.digits <= p.end <= |s|
  {
    var i := SkipSpace(s, 0);
    var j := SkipSign(s, i);
    var b := Radix(s, j, base);
    var k := SkipPrefix(s, j, base);
    Parts(i, j, k, SkipDigits(s, k, b), b)
  }

  predicate Negative(s: string, p: Parts)
  {
    p.sign < p.body <= |s| && s[p.sign] == '-'
  }

  function StrTo(s: string, base: int, signed: bool): Outcome {
    var p := Split(s, base);
    if !ValidBase(base) || p.end == p.digits then NOTHING
    else Settle(Negative(s, p), Number(s[p.digits..p.end], p.radix), p.end, signed)
  }

  // ------------------------------------------------------ the grammar --

  // s is white space, an optional sign, an optional prefix, digits of radix b, and a
  // rest that does not continue the digits, read in the given base.
  ghost predicate Subject(s: string, ws: string, sg: string, px: string, ds: string, rest: string,
                          base: int, b: int) {
    && s == ws + sg + px + ds + rest
    && (forall c <- ws :: IsSpace(c))
    && (sg == "" || sg == "+" || sg == "-")
    && ds != "" && AllDigits(ds, b) && (rest == "" || DigitOf(rest[0], b) < 0)
    && Prefix(px, ds + rest, base, b)
  }

  ghost predicate Prefix(px: string, tail: string, base: int, b: int)
    requires tail != ""
  {
    && ValidBase(base)
    && if px == "" then
         && !Prefixed(tail, 0, base)
         && b == (if base != 0 then base else if tail[0] == '0' then 8 else 10)
       else (px == "0x" || px == "0X") && b == 16 && (base == 0 || base == 16)
  }

  lemma {:induction false} SpaceSkipped(s: string, i: nat, j: nat)
    requires i <= j <= |s| && (forall k :: i <= k < j ==> IsSpace(s[k])) && (j == |s| || !IsSpace(s[j]))
    ensures SkipSpace(s, i) == j
  {
  }

  lemma {:induction false} DigitsSkipped(s: string, i: nat, j: nat, b: int)
    requires i <= j <= |s| && (forall k :: i <= k < j ==> DigitOf(s[k], b) >= 0)
    requires j == |s| || DigitOf(s[j], b) < 0
    ensures SkipDigits(s, i, b) == j
  {
  }

  lemma PrefixedShift(s: string, t: string, base: int)
    ensures Prefixed(s + t, |s|, base) == Prefixed(t, 0, base)
  {
    hide DigitOf;
    if |t| > 2 {
      assert (s + t)[|s|] == t[0] && (s + t)[|s| + 1] == t[1] && (s + t)[|s| + 2] == t[2];
    }
  }

  lemma DigitAhead(c: char, b: int)
    requires DigitOf(c, b) >= 0
    ensures !IsSpace(c) && !IsSign(c)
  {
  }

  lemma HexDigitAhead(px: string, tail: string, base: int)
    requires (px == "0x" || px == "0X") && (base == 0 || base == 16)
    requires tail != "" && DigitOf(tail[0], 16) >= 0
    ensures Prefixed(px + tail, 0, base)
  {
    hide DigitOf;
    assert (px + tail)[2] == tail[0];
  }

  // Where the pieces of any decomposition lie is where the scan finds them.
  lemma SubjectSplit(s: string, ws: string, sg: string, px: string, ds: string, rest: string, base: int, b: int)
    requires Subject(s, ws, sg, px, ds, rest, base, b)
    ensures var (i, j) := (|ws|, |ws + sg|);
            Split(s, base) == Parts(i, j, j + |px|, j + |px| + |ds|, b)
  {
    hide DigitOf, IsSpace, IsSign, SkipSign, SkipPrefix, Radix, Prefix;
    var (i, j) := (|ws|, |ws + sg|);
    var body := px + (ds + rest);
    assert s == ws + sg + body;
    HeadIsNoSpace(sg, px, ds, rest, base, b);
    assert s[i] == (sg + body)[0];
    SpaceSkipped(s, 0, i);
    SignSkipped(s, ws, sg, body);
    PrefixSkipped(ws + sg, px, ds + rest, base, b);
    var k := j + |px|;
    assert s == (ws + sg + px) + ds + rest;
    SubjectDigits(s, ws + sg + px, ds, rest, b);
  }

  lemma PrefixSkipped(before: string, px: string, tail: string, base: int, b: int)
    requires tail != "" && DigitOf(tail[0], b) >= 0 && Prefix(px, tail, base, b)
    ensures var s := before + (px + tail);
            SkipPrefix(s, |before|, base) == |before + px| && Radix(s, |before|, base) == b
  {
    hide DigitOf;
    var body := px + tail;
    PrefixedShift(before, body, base);
    if px != "" { HexDigitAhead(px, tail, base); } else { assert body == tail; }
    assert (before + body)[|before|] == body[0];
  }

  lemma SubjectDigits(s: string, before: string, ds: string, rest: string, b: int)
    requires s == before + ds + rest && AllDigits(ds, b) && (rest == "" || DigitOf(rest[0], b) < 0)
    ensures SkipDigits(s, |before|, b) == |before + ds|
  {
    hide DigitOf;
    var k := |before|;
    assert forall x :: k <= x < k + |ds| ==> s[x] == ds[x - k];
    assert rest != "" ==> s[k + |ds|] == rest[0];
    DigitsSkipped(s, k, k + |ds|, b);
  }

  lemma HeadIsNoSpace(sg: string, px: string, ds: string, rest: string, base: int, b: int)
    requires sg == "" || sg == "+" || sg == "-"
    requires ds != "" && DigitOf(ds[0], b) >= 0 && Prefix(px, ds + rest, base, b)
    ensures !IsSpace((sg + (px + (ds + rest)))[0]) && !IsSign((px + (ds + rest))[0])
  {
    hide DigitOf;
    DigitAhead(ds[0], b);
  }

  lemma SignSkipped(s: string, ws: string, sg: string, body: string)
    requires s == ws + sg + body && (sg == "" || sg == "+" || sg == "-")
    requires body != "" && !IsSign(body[0])
    ensures SkipSign(s, |ws|) == |ws + sg|
  {
    assert s[|ws|] == (sg + body)[0];
  }

  // Any decomposition gives the result: the exact magnitude of its digits, settled.
  lemma SubjectLaw(s: string, ws: string, sg: string, px: string, ds: string, rest: string,
                   base: int, b: int, signed: bool)
    requires Subject(s, ws, sg, px, ds, rest, base, b)
    ensures b > 0
    ensures StrTo(s, base, signed) == Settle(sg == "-", Number(ds, b), |s| - |rest|, signed)
  {
    hide DigitOf, IsSpace, Prefixed, Settle, Number, Split, AllDigits;
    SubjectSplit(s, ws, sg, px, ds, rest, base, b);
    var k := |ws + sg + px|;
    assert s[k..k + |ds|] == ds;
    if sg != "" { assert s[|ws|] == sg[0]; }
  }

  // What the result is: the value itself where it fits, otherwise the nearest limit and
  // the range flag; strtoul takes a minus sign modulo 2^32.
  lemma SubjectValue(s: string, ws: string, sg: string, px: string, ds: string, rest: string, base: int, b: int)
    requires Subject(s, ws, sg, px, ds, rest, base, b)
    ensures b > 0 && StrTo(s, base, true).end == StrTo(s, base, false).end == |s| - |rest|
    ensures var (r, v) := (StrTo(s, base, true), if sg == "-" then 0 - Number(ds, b) else Number(ds, b));
            && (r.erange <==> v < LONG_MIN || v > LONG_MAX)
            && r.value == if !r.erange then v else if v < 0 then LONG_MIN else LONG_MAX
    ensures var (r, v) := (StrTo(s, base, false), if sg == "-" then 0 - Number(ds, b) else Number(ds, b));
            && (r.erange <==> Number(ds, b) > ULONG_MAX)
            && 0 <= r.value <= ULONG_MAX
            && if r.erange then r.value == ULONG_MAX else (r.value - v) % (ULONG_MAX + 1) == 0
  {
    hide Subject, StrTo, Number;
    SubjectLaw(s, ws, sg, px, ds, rest, base, b, true);
    SubjectLaw(s, ws, sg, px, ds, rest, base, b, false);
  }

  // Exactly the blank and the control characters from tab to carriage return.
  lemma SpaceIs(c: char)
    ensures IsSpace(c) <==> c == ' ' || 9 <= c as int <= 13
  {
  }

  lemma SignFound(s: string, i: nat)
    requires i <= |s|
    ensures var j := SkipSign(s, i);
            (s[i..j] == "" || s[i..j] == "+" || s[i..j] == "-")
  {
  }

  lemma PrefixFound(s: string, j: nat, base: int)
    requires j <= |s| && ValidBase(base) && SkipPrefix(s, j, base) < |s|
    ensures var k := SkipPrefix(s, j, base);
            Prefix(s[j..k], s[k..], base, Radix(s, j, base))
  {
    hide DigitOf;
    var k := SkipPrefix(s, j, base);
    if Prefixed(s, j, base) {
      assert s[j..k] == [s[j], s[j + 1]];
    } else {
      assert s == s[..j] + s[j..];
      PrefixedShift(s[..j], s[j..], base);
    }
  }

  lemma Pieces(s: string, p: Parts)
    requires p.sign <= p.body <= p.digits <= p.end <= |s|
    ensures s == s[..p.sign] + s[p.sign..p.body] + s[p.body..p.digits] + s[p.digits..p.end] + s[p.end..]
    ensures s[p.digits..p.end] + s[p.end..] == s[p.digits..]
  {
  }

  lemma ScanIsSubject(s: string, base: int)
    requires ValidBase(base) && Split(s, base).digits < Split(s, base).end
    ensures var p := Split(s, base);
            Subject(s, s[..p.sign], s[p.sign..p.body], s[p.body..p.digits], s[p.digits..p.end], s[p.end..],
                    base, p.radix)
  {
    hide DigitOf, IsSpace, Prefix, SkipSign, SkipPrefix, Radix;
    var p := Split(s, base);
    Pieces(s, p);
    SignFound(s, p.sign);
    PrefixFound(s, p.body, base);
    assert p.end < |s| ==> s[p.end..][0] == s[p.end];
  }

  ghost predicate HasSubject(s: string, base: int) {
    exists ws, sg, px, ds, rest, b :: Subject(s, ws, sg, px, ds, rest, base, b)
  }

  // And a conversion always comes from one: characters are consumed exactly when the
  // string has a subject.
  lemma SubjectExists(s: string, base: int, signed: bool)
    ensures StrTo(s, base, signed).end > 0 <==> HasSubject(s, base)
    ensures StrTo(s, base, signed).end == 0 ==> StrTo(s, base, signed) == NOTHING
  {
    hide *;
    StrToEnds(s, base, signed);
    if ValidBase(base) && Split(s, base).digits < Split(s, base).end { ScanHasSubject(s, base); }
    if HasSubject(s, base) { SubjectConsumes(s, base, signed); }
  }

  lemma StrToEnds(s: string, base: int, signed: bool)
    ensures var (p, r) := (Split(s, base), StrTo(s, base, signed));
            p.digits <= p.end
            && if ValidBase(base) && p.digits < p.end then r.end > 0 else r == NOTHING && r.end == 0
  {
    hide Split, Number;
  }

  lemma ScanHasSubject(s: string, base: int)
    requires ValidBase(base) && Split(s, base).digits < Split(s, base).end
    ensures HasSubject(s, base)
  {
    hide Split, Subject;
    ScanIsSubject(s, base);
  }

  lemma SubjectConsumes(s: string, base: int, signed: bool)
    requires HasSubject(s, base)
    ensures StrTo(s, base, signed).end > 0
  {
    hide Subject, StrTo, Settle, Number;
    var ws, sg, px, ds, rest, b :| Subject(s, ws, sg, px, ds, rest, base, b);
    SubjectLaw(s, ws, sg, px, ds, rest, base, b, signed);
    SubjectLengths(s, ws, sg, px, ds, rest, base, b);
    SettleEnd(sg == "-", Number(ds, b), |s| - |rest|, signed);
  }

  lemma SettleEnd(neg: bool, mag: nat, end: nat, signed: bool)
    ensures Settle(neg, mag, end, signed).end == end
  {
  }

  lemma SubjectLengths(s: string, ws: string, sg: string, px: string, ds: string, rest: string, base: int, b: int)
    requires Subject(s, ws, sg, px, ds, rest, base, b)
    ensures |rest| < |s| && AllDigits(ds, b) && b > 0
  {
  }
}
