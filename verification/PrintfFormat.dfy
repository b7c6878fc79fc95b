// What a whole format prints: every well-formed format is a list of plain characters
// and conversions, and prints the texts of these, in order, from the arguments, in order.
module PrintfFormat {
  import opened Words
  import opened Seqs
  import opened ConvSpec
  import opened Conv
  import opened Numerals
  import opened PrintfSpec
  import opened PrintfLaws
  import opened PrintfText

  // A conversion as it is written: flags in any order and number, width, precision.
  datatype Item =
    | Plain(c: char)
    | Conversion(flags: string, width: string, prec: Option<string>, letter: char, args: seq<Arg>)

  function Dotted(prec: Option<string>): string { if prec.Some? then "." + prec.value else "" }

  function Source(it: Item): string {
    match it
    case Plain(c) => [c]
    case Conversion(flags, width, prec, letter, _) => "%" + flags + width + Dotted(prec) + [letter]
  }

  function ArgsOf(it: Item): seq<Arg> { if it.Plain? then [] else it.args }

  ghost predicate Flagged(flags: string) { forall k :: 0 <= k < |flags| ==> IsFlag(flags[k]) }

  // What the flags and digits of a conversion ask for.
  function Asked(flags: string, width: string, prec: Option<string>): Spec
    requires AllDigits(width, 10) && (prec.Some? ==> AllDigits(prec.value, 10))
  {
    Spec('-' in flags, '0' in flags, '+' in flags, ' ' in flags, '#' in flags,
         Number(width, 10), if prec.Some? then Number(prec.value, 10) else -1)
  }

  // The next character does not belong to the part before it.
  ghost predicate Delimited(flags: string, width: string, prec: Option<string>, letter: char) {
    && Flagged(flags) && AllDigits(width, 10) && (width != "" ==> !IsFlag(width[0]))
    && (prec.Some? ==> AllDigits(prec.value, 10))
    && DigitOf(letter, 10) < 0
    && (prec.None? ==> letter != '.' && (width == "" ==> !IsFlag(letter)))
  }

  ghost predicate ItemOk(it: Item) {
    match it
    case Plain(c) => c != '%'
    case Conversion(flags, width, prec, letter, args) =>
      && Delimited(flags, width, prec, letter)
      && SpecOk(Asked(flags, width, prec), letter, args)
      && |args| == if TakesArg(letter) then 1 else 0
  }

  // What an item must print: a character itself, a conversion its text, "%%" a percent
  // sign, and an unsupported conversion a percent sign and its letter.
  ghost predicate ItemPrints(it: Item, t: string)
    requires ItemOk(it)
  {
    match it
    case Plain(c) => t == [c]
    case Conversion(flags, width, prec, letter, args) =>
      if TakesArg(letter) then Prints(t, Asked(flags, width, prec), letter, args[0])
      else if letter == '%' then t == "%"
      else t == "%" + [letter]
  }

  ghost predicate AllOk(items: seq<Item>) { forall k :: 0 <= k < |items| ==> ItemOk(items[k]) }

  function Sources(items: seq<Item>): string {
    if items == [] then "" else Source(items[0]) + Sources(items[1..])
  }

  function AllArgs(items: seq<Item>): seq<Arg> {
    if items == [] then [] else ArgsOf(items[0]) + AllArgs(items[1..])
  }

  // The items print the texts, one by one.
  ghost predicate Texts(items: seq<Item>, texts: seq<string>) {
    AllOk(items) && |texts| == |items| && forall k :: 0 <= k < |items| ==> ItemPrints(items[k], texts[k])
  }

  // ------------------------------------------------------ reading a conversion --

  function SetFlags(f: Spec, s: string): Spec
    decreases |s|
  {
    if s == "" then f else SetFlags(SetFlag(f, s[0]), s[1..])
  }

  lemma {:induction false} FlagsOver(s: string, i: nat, j: nat, f: Spec)
    requires i <= j <= |s| && (forall k :: i <= k < j ==> IsFlag(s[k])) && (j == |s| || !IsFlag(s[j]))
    ensures Flags(s, i, f) == (SetFlags(f, s[i..j]), j)
    decreases j - i
  {
    hide IsFlag, SetFlag;
    if i < j {
      assert s[i..j][1..] == s[i + 1..j];
      FlagsOver(s, i + 1, j, SetFlag(f, s[i]));
    }
  }

  lemma DotEnds()
    ensures !IsFlag('.') && DigitOf('.', 10) < 0
  {
  }

  // Whatever their order and number, flags only ever switch things on.
  lemma {:induction false} FlagsSwitchOn(f: Spec, s: string)
    ensures SetFlags(f, s) == Spec(f.left || '-' in s, f.zero || '0' in s, f.plus || '+' in s,
                                   f.space || ' ' in s, f.hash || '#' in s, f.width, f.prec)
    decreases |s|
  {
    if s != "" {
      FlagsSwitchOn(SetFlag(f, s[0]), s[1..]);
      SwitchedOn(f, s[0]);
      assert forall c :: c in s <==> c == s[0] || c in s[1..];
      hide SetFlag, IsFlag;
    }
  }

  lemma SwitchedOn(f: Spec, c: char)
    ensures SetFlag(f, c) == Spec(f.left || c == '-', f.zero || c == '0', f.plus || c == '+',
                                  f.space || c == ' ', f.hash || c == '#', f.width, f.prec)
  {
  }

  lemma DigitsEnd(s: string, before: string, ds: string, rest: string)
    requires s == before + ds + rest && AllDigits(ds, 10) && (rest == "" || DigitOf(rest[0], 10) < 0)
    ensures SkipDigits(s, |before|, 10) == |before + ds| && Decimal(s, |before|) == Number(ds, 10)
  {
    hide DigitOf, Number, AllDigits;
    SubjectDigits(s, before, ds, rest, 10);
    assert s[|before|..|before + ds|] == ds;
  }

  lemma PrecisionRead(before: string, prec: Option<string>, letter: char, rest: string)
    requires prec.Some? ==> AllDigits(prec.value, 10)
    requires DigitOf(letter, 10) < 0 && (prec.None? ==> letter != '.')
    ensures Precision(before + (Dotted(prec) + [letter] + rest), |before|) ==
            (if prec.Some? then Number(prec.value, 10) else -1, |before + Dotted(prec)|)
  {
    hide DigitOf, Decimal, SkipDigits, Number, AllDigits;
    var s := before + (Dotted(prec) + [letter] + rest);
    if prec.Some? {
      assert s[|before|] == '.';
      assert s == (before + ".") + prec.value + ([letter] + rest);
      DigitsEnd(s, before + ".", prec.value, [letter] + rest);
    } else {
      assert s[|before|] == letter;
    }
  }

  lemma HeadOf(width: string, prec: Option<string>, letter: char, rest: string)
    requires Delimited("", width, prec, letter)
    ensures var tail := Dotted(prec) + [letter] + rest;
            && tail != "" && DigitOf(tail[0], 10) < 0
            && (width + tail) != "" && !IsFlag((width + tail)[0])
  {
    hide DigitOf, IsFlag, AllDigits;
    DotEnds();
    var tail := Dotted(prec) + [letter] + rest;
    assert tail[0] == if prec.Some? then '.' else letter;
    assert (width + tail)[0] == if width == "" then tail[0] else width[0];
  }

  // The scanner reads any conversion as it is written.
  lemma ConversionRead(before: string, flags: string, width: string, prec: Option<string>, letter: char, rest: string)
    requires Delimited(flags, width, prec, letter)
    ensures ParseSpec(before + flags + width + (Dotted(prec) + [letter] + rest), |before|) ==
            (Asked(flags, width, prec), |before + flags + width + Dotted(prec)|)
  {
    hide Flags, Decimal, SkipDigits, IsFlag, DigitOf, Precision, Number, AllDigits, SetFlags;
    var tail := Dotted(prec) + [letter] + rest;
    var s := before + flags + width + tail;
    var (i, j) := (|before|, |before + flags|);
    HeadOf(width, prec, letter, rest);
    assert s[i..j] == flags && s[j] == (width + tail)[0];
    assert forall k :: i <= k < j ==> s[k] == flags[k - i];
    FlagsOver(s, i, j, PLAIN);
    FlagsSwitchOn(PLAIN, flags);
    DigitsEnd(s, before + flags, width, tail);
    PrecisionRead(before + flags + width, prec, letter, rest);
  }

  // ------------------------------------------------------ lists print --

  lemma ConvertedPrints(it: Item, more: seq<Arg>, t: string)
    requires it.Conversion? && ItemOk(it)
    ensures var (f, args) := (Asked(it.flags, it.width, it.prec), it.args + more);
            && SpecOk(f, it.letter, args) && After(it.letter, args) == more
            && (t == Converted(f, it.letter, args) <==> ItemPrints(it, t))
  {
    hide Piece, Prints, Fits;
    var f := Asked(it.flags, it.width, it.prec);
    if TakesArg(it.letter) {
      assert (it.args + more)[0] == it.args[0] && (it.args + more)[1..] == more;
      PieceIff(t, f, it.letter, it.args[0]);
    } else {
      assert it.args + more == more;
    }
  }

  lemma ConversionRenders(s: string, i: nat, f: Spec, j: nat, args: seq<Arg>)
    requires i < j < |s| && s[i] == '%' && ParseSpec(s, i + 1) == (f, j)
    requires SpecOk(f, s[j], args) && WellFormed(s, j + 1, After(s[j], args))
    ensures WellFormed(s, i, args)
    ensures Render(s, i, args) == Converted(f, s[j], args) + Render(s, j + 1, After(s[j], args))
  {
    hide ParseSpec, SpecOk, Converted, After;
  }

  lemma PlainRenders(s: string, i: nat, args: seq<Arg>)
    requires i < |s| && s[i] != '%' && WellFormed(s, i + 1, args)
    ensures WellFormed(s, i, args) && Render(s, i, args) == [s[i]] + Render(s, i + 1, args)
  {
  }

  lemma ItemRenders(s: string, before: string, it: Item, rest: string, more: seq<Arg>, t: string)
    requires s == before + Source(it) + rest && ItemOk(it) && ItemPrints(it, t)
    requires WellFormed(s, |before + Source(it)|, more)
    ensures WellFormed(s, |before|, ArgsOf(it) + more)
    ensures Render(s, |before|, ArgsOf(it) + more) == t + Render(s, |before + Source(it)|, more)
  {
    hide ParseSpec, SpecOk, Converted, After, ItemPrints, Dotted, WellFormed, Render, Prints;
    hide AllDigits, IsFlag, DigitOf;
    if it.Plain? {
      assert s[|before|] == it.c && [] + more == more;
      PlainRenders(s, |before|, more);
      PlainPrints(it, t);
    } else {
      ConversionStands(s, before, it, rest);
      ConvertedPrints(it, more, t);
      ConversionRenders(s, |before|, Asked(it.flags, it.width, it.prec), |before + Source(it)| - 1, it.args + more);
    }
  }

  lemma PlainPrints(it: Item, t: string)
    requires it.Plain? && ItemOk(it) && ItemPrints(it, t)
    ensures t == [it.c]
  {
  }

  // Where the parts of a conversion are.
  lemma ConversionStands(s: string, before: string, it: Item, rest: string)
    requires it.Conversion? && ItemOk(it) && s == before + Source(it) + rest
    ensures var (i, j) := (|before|, |before + Source(it)| - 1);
            && i < j < |s| && s[i] == '%' && s[j] == it.letter
            && ParseSpec(s, i + 1) == (Asked(it.flags, it.width, it.prec), j)
  {
    hide ParseSpec, SpecOk, Delimited, Asked, Dotted;
    Stands(s, before, it.flags, it.width, Dotted(it.prec), it.letter, rest);
    ConversionRead(before + "%", it.flags, it.width, it.prec, it.letter, rest);
  }

  lemma Stands(s: string, before: string, a: string, b: string, c: string, letter: char, rest: string)
    requires s == before + ("%" + a + b + c + [letter]) + rest
    ensures s == before + "%" + a + b + (c + [letter] + rest)
    ensures var j := |before + "%" + a + b + c|;
            |before| < j < |s| && s[|before|] == '%' && s[j] == letter
  {
  }

  lemma {:induction false} ItemsRender(before: string, items: seq<Item>, texts: seq<string>, more: seq<Arg>)
    requires Texts(items, texts)
    ensures var (s, args) := (before + Sources(items), AllArgs(items) + more);
            WellFormed(s, |before|, args) && Render(s, |before|, args) == Flat(texts)
    decreases |items|
  {
    hide ItemOk, ItemPrints, Source, ArgsOf;
    var s := before + Sources(items);
    if items == [] {
    } else {
      var (it, rest) := (items[0], items[1..]);
      ItemsRender(before + Source(it), rest, texts[1..], more);
      Assoc(before, Source(it), Sources(rest));
      Assoc(ArgsOf(it), AllArgs(rest), more);
      ItemRenders(s, before, it, Sources(rest), AllArgs(rest) + more, texts[0]);
    }
  }

  // ------------------------------------------------------ every format is a list --

  lemma {:induction false} FlagsStop(s: string, i: nat, f: Spec)
    requires i <= |s|
    ensures var j := Flags(s, i, f).1;
            (forall k :: i <= k < j ==> IsFlag(s[k])) && (j == |s| || !IsFlag(s[j]))
    decreases |s| - i
  {
    hide IsFlag, SetFlag;
    if i < |s| && IsFlag(s[i]) { FlagsStop(s, i + 1, SetFlag(f, s[i])); }
  }

  lemma DigitsScanned(s: string, i: nat)
    requires i <= |s|
    ensures var j := SkipDigits(s, i, 10);
            && AllDigits(s[i..j], 10) && Decimal(s, i) == Number(s[i..j], 10)
            && (s[i..j] != "" ==> i < |s| && s[i..j][0] == s[i])
            && (j == |s| || DigitOf(s[j], 10) < 0)
  {
    hide DigitOf, Number;
  }

  lemma PrecisionScanned(s: string, i: nat) returns (prec: Option<string>)
    requires i <= |s|
    ensures prec.Some? ==> AllDigits(prec.value, 10)
    ensures var (p, j) := Precision(s, i);
            && p == (if prec.Some? then Number(prec.value, 10) else -1)
            && s[i..j] == Dotted(prec)
            && (prec.Some? ==> j == |s| || DigitOf(s[j], 10) < 0)
            && (prec.None? ==> j == i && (i == |s| || s[i] != '.'))
  {
    hide DigitOf, Number, AllDigits, SkipDigits, Decimal;
    if i < |s| && s[i] == '.' {
      DigitsScanned(s, i + 1);
      var j := SkipDigits(s, i + 1, 10);
      prec := Some(s[i + 1..j]);
      assert s[i..j] == "." + s[i + 1..j];
    } else {
      prec := None;
    }
  }

  lemma FlagsScanned(s: string, i: nat)
    requires i <= |s|
    ensures var (f, j) := Flags(s, i, PLAIN);
            && Flagged(s[i..j]) && f == Asked(s[i..j], "", None) && (j == |s| || !IsFlag(s[j]))
  {
    hide IsFlag, SetFlag;
    NoDigits(10);
    FlagsStop(s, i, PLAIN);
    var j := Flags(s, i, PLAIN).1;
    FlagsOver(s, i, j, PLAIN);
    FlagsSwitchOn(PLAIN, s[i..j]);
  }

  // The conversion at s[i], just past its '%', taken apart.
  lemma ScannedParts(s: string, i: nat) returns (flags: string, width: string, prec: Option<string>)
    requires i <= |s| && ParseSpec(s, i).1 < |s|
    ensures var (f, j) := ParseSpec(s, i);
            && Delimited(flags, width, prec, s[j]) && f == Asked(flags, width, prec)
            && s[i..j] == flags + width + Dotted(prec)
  {
    hide IsFlag, DigitOf, Flags, Number, AllDigits, Flagged, SkipDigits, Decimal, Precision, Dotted;
    var j1 := Flags(s, i, PLAIN).1;
    FlagsScanned(s, i);
    DigitsScanned(s, j1);
    var k := SkipDigits(s, j1, 10);
    prec := PrecisionScanned(s, k);
    flags, width := s[i..j1], s[j1..k];
    var j := Precision(s, k).1;
    assert s[i..j] == s[i..j1] + s[j1..k] + s[k..j];
  }

  lemma {:induction false} Itemised(s: string, i: nat, args: seq<Arg>) returns (items: seq<Item>)
    requires i <= |s| && WellFormed(s, i, args)
    ensures AllOk(items) && s[i..] == Sources(items) && AllArgs(items) <= args
    decreases |s| - i
  {
    hide ParseSpec, SpecOk, After, ItemOk, Source, ArgsOf, Render;
    if i == |s| {
      items := [];
    } else if s[i] != '%' {
      var rest := Itemised(s, i + 1, args);
      items := [Plain(s[i])] + rest;
      PlainItem(s, i);
      assert items[1..] == rest && [] + AllArgs(rest) == AllArgs(rest);
    } else {
      var (f, j) := ParseSpec(s, i + 1);
      var it := ScannedItem(s, i, args);
      var rest := Itemised(s, j + 1, After(s[j], args));
      items := [it] + rest;
      assert items[1..] == rest && s[i..] == Source(it) + s[j + 1..];
    }
  }

  lemma PlainItem(s: string, i: nat)
    requires i < |s| && s[i] != '%'
    ensures ItemOk(Plain(s[i])) && ArgsOf(Plain(s[i])) == [] && s[i..] == Source(Plain(s[i])) + s[i + 1..]
  {
  }

  lemma ScannedItem(s: string, i: nat, args: seq<Arg>) returns (it: Item)
    requires i < |s| && s[i] == '%'
    requires var (f, j) := ParseSpec(s, i + 1); j < |s| && SpecOk(f, s[j], args)
    ensures ItemOk(it)
    ensures var (f, j) := ParseSpec(s, i + 1);
            && s[i..] == Source(it) + s[j + 1..]
            && forall r :: r <= After(s[j], args) ==> ArgsOf(it) + r <= args
  {
    hide ParseSpec, SpecOk, Delimited, Asked, Dotted, After;
    var (f, j) := ParseSpec(s, i + 1);
    var flags, width, prec := ScannedParts(s, i + 1);
    OwnArgs(f, s[j], args);
    it := Conversion(flags, width, prec, s[j], if TakesArg(s[j]) then [args[0]] else []);
    assert s[i..] == "%" + s[i + 1..j] + [s[j]] + s[j + 1..];
    assert "%" + (flags + width + Dotted(prec)) == "%" + flags + width + Dotted(prec);
  }

  lemma OwnArgs(f: Spec, c: char, args: seq<Arg>)
    requires SpecOk(f, c, args)
    ensures TakesArg(c) ==> args != []
    ensures var own := if TakesArg(c) then [args[0]] else [];
            && SpecOk(f, c, own) && |own| == (if TakesArg(c) then 1 else 0)
            && forall r :: r <= After(c, args) ==> own + r <= args
  {
    hide Fits;
    if TakesArg(c) { assert args == [args[0]] + args[1..]; }
  }

  // ------------------------------------------------------ the meaning of a format --

  // items make up the format, and take their arguments from the front of args.
  ghost predicate Listed(items: seq<Item>, fmt: string, args: seq<Arg>) {
    AllOk(items) && fmt == Sources(items) && AllArgs(items) <= args
  }

  ghost predicate Means(fmt: string, args: seq<Arg>, t: string) {
    exists items, texts :: Listed(items, fmt, args) && Texts(items, texts) && t == Flat(texts)
  }

  lemma ListPrints(items: seq<Item>, texts: seq<string>, fmt: string, args: seq<Arg>)
    requires Listed(items, fmt, args) && Texts(items, texts)
    ensures WellFormed(fmt, 0, args) && Format(fmt, args) == Flat(texts)
  {
    hide AllOk, Texts, WellFormed, Render, Sources, AllArgs, Flat;
    var more := args[|AllArgs(items)|..];
    ItemsRender("", items, texts, more);
    assert "" + Sources(items) == fmt && AllArgs(items) + more == args;
  }

  lemma {:induction false} TextsExist(items: seq<Item>) returns (texts: seq<string>)
    requires AllOk(items)
    ensures Texts(items, texts)
    decreases |items|
  {
    hide ItemOk, ItemPrints;
    if items == [] {
      texts := [];
    } else {
      var t := TextExists(items[0]);
      var rest := TextsExist(items[1..]);
      texts := [t] + rest;
    }
  }

  lemma TextExists(it: Item) returns (t: string)
    requires ItemOk(it)
    ensures ItemPrints(it, t)
  {
    hide Prints, Converted, Asked;
    match it
    case Plain(c) => t := [c];
    case Conversion(flags, width, prec, letter, args) =>
      assert args + [] == args;
      ConvertedPrints(it, [], Converted(Asked(flags, width, prec), letter, args));
      t := Converted(Asked(flags, width, prec), letter, args);
  }

  // For every format and every arguments: it is well formed exactly when it is a list
  // of characters and conversions with their arguments, and then it prints t exactly
  // when t is the texts of these, one after another.
  lemma FormatMeans(fmt: string, args: seq<Arg>)
    ensures WellFormed(fmt, 0, args) <==> exists items :: Listed(items, fmt, args)
    ensures WellFormed(fmt, 0, args) ==> forall t :: t == Format(fmt, args) <==> Means(fmt, args, t)
  {
    hide Listed, Texts, WellFormed, Format;
    if WellFormed(fmt, 0, args) {
      var items := ListOf(fmt, args);
      var texts := ListTexts(items, fmt, args);
      ListPrints(items, texts, fmt, args);
      forall t ensures t == Format(fmt, args) <==> Means(fmt, args, t) {
        if Means(fmt, args, t) {
          var xs, ts :| Listed(xs, fmt, args) && Texts(xs, ts) && t == Flat(ts);
          ListPrints(xs, ts, fmt, args);
        }
      }
    }
    forall items | Listed(items, fmt, args) ensures WellFormed(fmt, 0, args) {
      var texts := ListTexts(items, fmt, args);
      ListPrints(items, texts, fmt, args);
    }
  }

  lemma ListOf(fmt: string, args: seq<Arg>) returns (items: seq<Item>)
    requires WellFormed(fmt, 0, args)
    ensures Listed(items, fmt, args)
  {
    items := Itemised(fmt, 0, args);
    assert fmt[0..] == fmt;
  }

  lemma ListTexts(items: seq<Item>, fmt: string, args: seq<Arg>) returns (texts: seq<string>)
    requires Listed(items, fmt, args)
    ensures Texts(items, texts)
  {
    texts := TextsExist(items);
  }

  // ------------------------------------------------------ writing a spec --

  function Switch(on: bool, c: char): (s: string)
    ensures forall x :: x in s <==> on && x == c
  {
    if on then [c] else ""
  }

  function FlagText(f: Spec): string {
    Switch(f.left, '-') + Switch(f.zero, '0') + Switch(f.plus, '+') + Switch(f.space, ' ') + Switch(f.hash, '#')
  }

  function PrecText(p: int): Option<string> { if p < 0 then None else Some(Places(p, 10, false)) }

  // A format's text for a spec.
  function SpecText(f: Spec): string { FlagText(f) + Places(f.width, 10, false) + Dotted(PrecText(f.prec)) }

  lemma FlagTextIs(f: Spec)
    ensures Flagged(FlagText(f))
    ensures var s := FlagText(f);
            && ('-' in s <==> f.left) && ('0' in s <==> f.zero) && ('+' in s <==> f.plus)
            && (' ' in s <==> f.space) && ('#' in s <==> f.hash)
  {
    var a := Switch(f.left, '-');
    var b := Switch(f.zero, '0');
    var c := Switch(f.plus, '+');
    var d := Switch(f.space, ' ');
    var e := Switch(f.hash, '#');
    hide Switch;
    assert forall x :: x in FlagText(f) <==> x in a || x in b || x in c || x in d || x in e;
    hide FlagText;
    var s := FlagText(f);
    forall k | 0 <= k < |s| ensures IsFlag(s[k]) { assert s[k] in s; }
  }

  // A character that ends a spec.
  predicate Letter(c: char) { 'A' <= c <= 'z' || c == '%' }

  lemma LetterEnds(c: char)
    requires Letter(c)
    ensures !IsFlag(c) && DigitOf(c, 10) < 0 && c != '.'
  {
  }

  lemma DigitNoFlag(c: char)
    requires DigitOf(c, 10) >= 0 && c != '0'
    ensures !IsFlag(c)
  {
  }

  lemma PlacesNoFlag(n: nat)
    ensures Places(n, 10, false) != "" ==> !IsFlag(Places(n, 10, false)[0])
  {
    hide Places, DigitOf, IsFlag;
    PlacesRead(n, 10, false);
    if n == 0 { NoPlaces(); } else { DigitNoFlag(Places(n, 10, false)[0]); }
  }

  lemma NoPlaces()
    ensures Places(0, 10, false) == ""
  {
  }

  lemma FourParts(before: string, a: string, b: string, c: string, letter: char, rest: string)
    ensures before + (a + b + c) + [letter] + rest == before + a + b + (c + [letter] + rest)
    ensures before + (a + b + c) == before + a + b + c
  {
  }

  // The scanner reads back the spec that was written.
  lemma SpecReadsBack(before: string, f: Spec, c: char, rest: string)
    requires f.prec >= -1 && Letter(c)
    ensures ParseSpec(before + SpecText(f) + [c] + rest, |before|) == (f, |before + SpecText(f)|)
  {
    hide ParseSpec, Places, IsFlag, DigitOf, FlagText, Number, AllDigits, Flagged, Dotted;
    var (ft, wt, pt) := (FlagText(f), Places(f.width, 10, false), PrecText(f.prec));
    FlagTextIs(f);
    PlacesNoFlag(f.width);
    PlacesRead(f.width, 10, false);
    if f.prec >= 0 { PlacesRead(f.prec, 10, false); }
    LetterEnds(c);
    ConversionRead(before, ft, wt, pt, c, rest);
    FourParts(before, ft, wt, Dotted(pt), c, rest);
  }

  // ------------------------------------------------------ end to end --

  function OneFormat(f: Spec, c: char): string { "%" + SpecText(f) + [c] }

  // A format that is one conversion prints exactly that conversion's text.
  lemma OneConversion(f: Spec, c: char, a: Arg)
    requires f.prec >= -1 && TakesArg(c) && SpecOk(f, c, [a])
    ensures WellFormed(OneFormat(f, c), 0, [a])
    ensures Format(OneFormat(f, c), [a]) == Piece(f, c, a)
  {
    assert Fits(c, a);
    hide SpecText, ParseSpec, Piece, SpecOk, WellFormed, Render;
    var s := OneFormat(f, c);
    var j := |"%" + SpecText(f)|;
    assert s == "%" + SpecText(f) + [c] + "";
    assert Letter(c);
    SpecReadsBack("%", f, c, "");
    assert s[0] == '%' && s[j] == c && j + 1 == |s|;
    RenderOne(s, f, j, a);
    Empty(Piece(f, c, a));
  }

  lemma RenderOne(s: string, f: Spec, j: nat, a: Arg)
    requires j + 1 == |s| && s[0] == '%' && ParseSpec(s, 1) == (f, j)
    requires TakesArg(s[j]) && SpecOk(f, s[j], [a])
    ensures WellFormed(s, 0, [a]) && Render(s, 0, [a]) == Piece(f, s[j], a) + ""
  {
    hide ParseSpec, Piece, SpecOk, TakesArg;
    assert [a][1..] == [];
    assert WellFormed(s, |s|, []);
    assert Render(s, |s|, []) == "";
  }

  // Print, then read: the value comes back for every format that is one conversion.
  lemma PrintThenRead(f: Spec, v: int32, w: word)
    requires f.prec >= -1 && f.prec <= TMPMAX && f.width <= INT_MAX
    ensures WellFormed(OneFormat(f, 'd'), 0, [Int(v)])
            && Reads(Format(OneFormat(f, 'd'), [Int(v)]), 10, true, v)
    ensures WellFormed(OneFormat(f, 'i'), 0, [Int(v)])
            && Reads(Format(OneFormat(f, 'i'), [Int(v)]), 10, true, v)
    ensures WellFormed(OneFormat(f, 'u'), 0, [Uns(w)])
            && Reads(Format(OneFormat(f, 'u'), [Uns(w)]), 10, false, w)
    ensures WellFormed(OneFormat(f, 'x'), 0, [Uns(w)])
            && Reads(Format(OneFormat(f, 'x'), [Uns(w)]), 16, false, w)
            && (f.hash ==> Reads(Format(OneFormat(f, 'x'), [Uns(w)]), 0, false, w))
    ensures WellFormed(OneFormat(f, 'X'), 0, [Uns(w)])
            && Reads(Format(OneFormat(f, 'X'), [Uns(w)]), 16, false, w)
            && (f.hash ==> Reads(Format(OneFormat(f, 'X'), [Uns(w)]), 0, false, w))
    ensures WellFormed(OneFormat(f, 'p'), 0, [Ptr(w)])
            && Reads(Format(OneFormat(f, 'p'), [Ptr(w)]), 0, false, w)
  {
    hide OneFormat, Reads, SignedText, UnsignedText, HexField, PointerText, Format, WellFormed;
    OneConversion(f, 'd', Int(v));
    OneConversion(f, 'i', Int(v));
    OneConversion(f, 'u', Uns(w));
    OneConversion(f, 'x', Uns(w));
    OneConversion(f, 'X', Uns(w));
    SignedReadsBack(f, v);
    UnsignedReadsBack(f, w);
    HexReadsBack(f, w, false);
    HexReadsBack(f, w, true);
    OneConversion(f, 'p', Ptr(w));
    PointerReadsBack(f, w, 0);
  }
}
