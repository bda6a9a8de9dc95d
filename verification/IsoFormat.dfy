/**
 Formats as section 7.19.6.1 of ISO/IEC 9899:1999 describes them: every conversion vprintf knows, with its flags,
 sizes, length and argument, and exactly where kernel/modules/video/kprintf.c:343-571 prints the same.
 */
module IsoFormat {
  import opened Pmm
  import opened Kprintf
  import opened Vprintf
  import opened IsoNumber

  // ---- the standard ----

  /** The arguments an item takes: one for each `*` and one to be converted. */
  function Taken(item: Item): nat {
    match item
    case Literal(_) => 0
    case Conversion(_, width, precision, _, conv) =>
      (if width.Star? then 1 else 0) + (if precision.Star? then 1 else 0) + if conv == '%' then 0 else 1
  }

  /** A width or precision: an int argument, or a decimal integer, which is 0 if left out behind a period. */
  function IsoSize(size: Size, args: seq<Arg>): int
    requires size.Star? ==> args != [] && args[0].Word?
  {
    match size
    case Absent => 0
    case Star => Operand('d', args[0].w)
    case Given(digits) => Value(digits, 10)
  }

  function IsoFlags(item: Item): Flags
    requires item.Conversion?
  {
    Flags(left := '-' in item.flags, plus := '+' in item.flags, space := ' ' in item.flags,
          hash := '#' in item.flags, zeropad := '0' in item.flags, precision := !item.precision.Absent?,
          signed := false, uppercase := false)
  }

  /** The argument, converted back to the type that the length modifier names. */
  function IsoArgument(conv: char, length: Length, w: word): int {
    match length
    case LengthHH => if IsSigned(conv) && w % 0x100 >= 0x80 then w % 0x100 - 0x100 else w % 0x100
    case LengthH => if IsSigned(conv) && w % 0x1_0000 >= 0x8000 then w % 0x1_0000 - 0x1_0000 else w % 0x1_0000
    case _ => Operand(conv, w)
  }

  /** A string up to its end or to the precision. */
  function IsoShown(s: string, precision: int, f: Flags): string {
    if IsoNumber.Given(precision, f) && precision < |s| then s[..precision] else s
  }

  function IsoString(text: string, width: int, f: Flags): string {
    Layout(f.left || width < 0, false, Abs(width), "", text)
  }

  /** The text of one conversion. The standard leaves the form of a pointer open; here it is that of x. */
  function IsoConverted(conv: char, length: Length, width: int, precision: int, f: Flags, arg: Arg): string
    requires conv == 's' <==> arg.Text?
  {
    if conv == 's' then IsoString(IsoShown(arg.s, precision, f), width, f)
    else if conv == 'c' then IsoString([(arg.w % 0x100) as char], width, f)
    else if conv == 'p' then IsoText('x', arg.w, width, precision, f)
    else IsoText(conv, IsoArgument(conv, length, arg.w), width, precision, f)
  }

  function IsoItem(item: Item, args: seq<Arg>): string
    requires ArgsOk(item, args)
  {
    match item
    case Literal(c) => [c]
    case Conversion(_, width, precision, length, conv) =>
      if conv == '%' then "%"
      else
        IsoConverted(conv, length, IsoSize(width, args), IsoSize(precision, if width.Star? then args[1..] else args),
                     IsoFlags(item), args[Taken(item) - 1])
  }

  /** The output for a format: its items in order, each with the arguments that the ones before it leave. */
  function IsoOutput(items: seq<Item>, args: seq<Arg>): string
    requires AllOk(items, args)
  {
    if items == [] then ""
    else
      TakenIs(items[0], args);
      IsoItem(items[0], args) + IsoOutput(items[1..], args[Taken(items[0])..])
  }

  lemma TakenIs(item: Item, args: seq<Arg>)
    requires ArgsOk(item, args)
    ensures Taken(item) <= |args| && ArgsLeft(item, args) == args[Taken(item)..]
  {
  }

  /** The flags and conversions vprintf knows: those of the standard but for floating point and %n. */
  lemma Known(c: char)
    ensures IsFlag(c) <==> c in "-+ #0"
    ensures IsConv(c) <==> c in "dioxXucsp%"
    ensures IsNumber(c) <==> c in "diouxX"
  {
  }

  // ---- where the code prints the same ----

  /** The characters of a string are all spaces. */
  predicate Blank(s: string) {
    forall i :: 0 <= i < |s| ==> s[i] == ' '
  }

  /** Negative widths and precisions are where strings differ, up to fields that happen to come out the same. */
  predicate StringAgrees(s: string, width: int, precision: int, f: Flags) {
    if width >= 0 then !(f.precision && precision < 0)
    else if f.precision && precision < 0 then
      Max(width - precision, 0) == Max(-width - |s|, 0) && (f.left || width <= precision || Blank(s))
    else -width <= |IsoShown(s, precision, f)|
  }

  predicate ConvertedAgrees(conv: char, length: Length, width: int, precision: int, f: Flags, arg: Arg)
    requires conv == 's' <==> arg.Text?
  {
    if conv == 's' then StringAgrees(arg.s, width, precision, f)
    else if conv == 'c' then width >= -1
    else if conv == 'p' then Agrees('x', arg.w, width, precision, f)
    else
      && Agrees(conv, Narrow(arg.w, length), width, precision, f)
      && !(IsSigned(conv) && (length == LengthHH || length == LengthH) && IsoArgument(conv, length, arg.w) < 0)
  }

  predicate ItemAgrees(item: Item, args: seq<Arg>)
    requires ArgsOk(item, args)
  {
    item.Conversion? && item.conv != '%' ==>
      ConvertedAgrees(item.conv, item.length, IsoSize(item.width, args),
                      IsoSize(item.precision, if item.width.Star? then args[1..] else args),
                      IsoFlags(item), args[Taken(item) - 1])
  }

  // ---- strings ----

  function Padded(text: string, left: bool, n: int): string {
    if left then text + Repeat(' ', n) else Repeat(' ', n) + text
  }

  /** Two ways to pad a text with spaces. */
  lemma PadsExact(text: string, left: bool, m: int, isoLeft: bool, n: int)
    requires left ==> isoLeft
    ensures Padded(text, left, m) == Padded(text, isoLeft, n) <==>
              Max(m, 0) == Max(n, 0) && (left == isoLeft || m <= 0 || Blank(text))
  {
    var a, b := Padded(text, left, m), Padded(text, isoLeft, n);
    RepeatLength(' ', m);
    RepeatLength(' ', n);
    if Max(m, 0) == Max(n, 0) {
      assert Repeat(' ', m) == Repeat(' ', n);
      if left != isoLeft && m > 0 {
        if Blank(text) {
          assert a == b;
        } else if a == b {
          Shifted(text, m);
        }
      }
    } else {
      assert |a| != |b|;
    }
  }

  /** A text that moving it behind spaces does not change is blank. */
  lemma Shifted(text: string, m: int)
    requires m > 0 && Repeat(' ', m) + text == text + Repeat(' ', m)
    ensures Blank(text)
  {
    var a, b := Repeat(' ', m) + text, text + Repeat(' ', m);
    forall i | 0 <= i < |text| ensures text[i] == ' ' {
      ShiftedAt(text, m, i);
    }
  }

  lemma {:induction false} ShiftedAt(text: string, m: int, i: nat)
    requires m > 0 && Repeat(' ', m) + text == text + Repeat(' ', m) && i < |text|
    ensures text[i] == ' '
    decreases i
  {
    var a, b := Repeat(' ', m) + text, text + Repeat(' ', m);
    assert a[i] == b[i] == text[i];
    if i >= m {
      ShiftedAt(text, m, i - m);
      assert a[i] == text[i - m];
    }
  }

  lemma StringExact(s: string, width: int, precision: int, f: Flags)
    ensures Field(Shown(s, precision, f), TextPad(s, width, precision, f), f) ==
              IsoString(IsoShown(s, precision, f), width, f) <==>
              StringAgrees(s, width, precision, f)
  {
    var shown, m := IsoShown(s, precision, f), TextPad(s, width, precision, f);
    hide Repeat;
    FieldIs(shown, width, f);
    PadsExact(shown, f.left, m, f.left || width < 0, Abs(width) - |shown|);
  }

  lemma FieldIs(text: string, width: int, f: Flags)
    ensures IsoString(text, width, f) == Padded(text, f.left || width < 0, Abs(width) - |text|)
    ensures forall n :: Field(text, n, f) == Padded(text, f.left, n)
  {
    var pad := Repeat(' ', Abs(width) - |text|);
    assert "" + text + pad == text + pad && pad + "" + text == pad + text;
  }

  lemma CharExact(c: char, width: int, f: Flags)
    ensures Field([c], width - 1, f) == IsoString([c], width, f) <==> width >= -1
  {
    hide Repeat;
    FieldIs([c], width, f);
    PadsExact([c], f.left, width - 1, f.left || width < 0, Abs(width) - 1);
  }

  // ---- numbers ----

  /** A signed short argument below 0 loses its sign in the code, and never comes out right. */
  lemma ShortDiffers(conv: char, length: Length, w: word, width: int, precision: int, f: Flags)
    requires IsSigned(conv) && (length == LengthHH || length == LengthH) && IsoArgument(conv, length, w) < 0
    ensures Printed(conv, Narrow(w, length), width, precision, f) !=
              IsoText(conv, IsoArgument(conv, length, w), width, precision, f)
  {
    var number, x := Narrow(w, length), IsoArgument(conv, length, w);
    ShortHeads(conv, length, w, f);
    hide Printed, CodeBody, CodeHead, Layout, IsoDigits, IsoHead, Narrow, IsoArgument;
    PrintedIs(conv, number, width, precision, f);
    NoSignInside(conv, number, precision, f);
    InLayout(f.left, f.zeropad && !f.precision, width, CodeHead(conv, number, f),
        CodeBody(conv, number, precision, f), '-');
    InLayout(f.left || width < 0, f.zeropad && !IsoNumber.Given(precision, f), Abs(width), IsoHead(conv, x, f),
        IsoDigits(conv, x, precision, f), '-');
  }

  lemma ShortHeads(conv: char, length: Length, w: word, f: Flags)
    requires IsSigned(conv) && (length == LengthHH || length == LengthH) && IsoArgument(conv, length, w) < 0
    ensures '-' in IsoHead(conv, IsoArgument(conv, length, w), f) && '-' !in CodeHead(conv, Narrow(w, length), f)
  {
    CodeHeadIs(conv, Narrow(w, length), f);
    hide CodeHead;
    assert IsoHead(conv, IsoArgument(conv, length, w), f)[0] == '-';
  }

  lemma NumberExact(conv: char, length: Length, w: word, width: int, precision: int, f: Flags)
    requires IsNumber(conv)
    ensures Printed(conv, Narrow(w, length), width, precision, f) ==
              IsoText(conv, IsoArgument(conv, length, w), width, precision, f) <==>
              ConvertedAgrees(conv, length, width, precision, f, Word(w))
  {
    hide Printed, IsoText, Agrees;
    if IsSigned(conv) && (length == LengthHH || length == LengthH) && IsoArgument(conv, length, w) < 0 {
      ShortDiffers(conv, length, w, width, precision, f);
    } else {
      assert IsoArgument(conv, length, w) == Operand(conv, Narrow(w, length));
      IsoExact(conv, Narrow(w, length), width, precision, f);
    }
  }

  /** The flags as the code has them when it converts: zero padding gives way to any precision. */
  function CodeFlags(conv: char, f: Flags): Flags {
    WithConv(f.(zeropad := f.zeropad && !f.precision), conv)
  }

  /** %p is %x without a length. */
  lemma PointerExact(w: word, width: int, precision: int, f: Flags)
    ensures Number(w, Base('p'), width, CodePrecision(precision, f), CodeFlags('p', f)) ==
              IsoText('x', w, width, precision, f) <==>
              Agrees('x', w, width, precision, f)
  {
    hide Number, IsoText, Agrees;
    IsoExact('x', w, width, precision, f);
  }

  lemma ConvertedIs(conv: char, length: Length, width: int, precision: int, f: Flags, args: seq<Arg>)
    requires IsConv(conv) && conv != '%' && ConvArgOk(conv, args)
    ensures Converted(conv, length, CodeFlags(conv, f), width, CodePrecision(precision, f), args) ==
              if conv == 's' then
                Field(Shown(args[0].s, precision, f), TextPad(args[0].s, width, precision, f), f)
              else if conv == 'c' then Field([(args[0].w % 0x100) as char], width - 1, f)
              else
                Number(if conv == 'p' then args[0].w else Narrow(args[0].w, length), Base(conv), width,
                       CodePrecision(precision, f), CodeFlags(conv, f))
  {
    hide Repeat, Number;
  }

  lemma ConvertedExact(conv: char, length: Length, width: int, precision: int, f: Flags, args: seq<Arg>)
    requires IsConv(conv) && conv != '%' && ConvArgOk(conv, args)
    ensures Converted(conv, length, CodeFlags(conv, f), width, CodePrecision(precision, f), args) ==
              IsoConverted(conv, length, width, precision, f, args[0]) <==>
              ConvertedAgrees(conv, length, width, precision, f, args[0])
  {
    ConvertedIs(conv, length, width, precision, f, args);
    hide Converted, Number, Field, Shown, TextPad, IsoString, IsoShown, IsoText, StringAgrees, Agrees;
    if conv == 's' {
      StringExact(args[0].s, width, precision, f);
    } else if conv == 'c' {
      CharExact((args[0].w % 0x100) as char, width, f);
    } else if conv == 'p' {
      PointerExact(args[0].w, width, precision, f);
    } else {
      NumberExact(conv, length, args[0].w, width, precision, f);
    }
  }

  // ---- items ----

  lemma PartsAre(item: Item, args: seq<Arg>)
    requires item.Conversion? && item.conv != '%' && ArgsOk(item, args)
    ensures var args1 := AfterStar(item.width, args);
            && args1 == (if item.width.Star? then args[1..] else args)
            && AfterStar(item.precision, args1) != [] && AfterStar(item.precision, args1)[0] == args[Taken(item) - 1]
            && StarOk(item.width, args) && SizeValue(item.width, args, 0) == IsoSize(item.width, args)
            && StarOk(item.precision, args1)
            && CodePrecision(IsoSize(item.precision, args1), IsoFlags(item)) == SizeValue(item.precision, args1, 1)
            && FlagsOf(item) == CodeFlags(item.conv, IsoFlags(item))
  {
    hide Value;
  }

  lemma OutputIs(item: Item, args: seq<Arg>)
    requires item.Conversion? && item.conv != '%' && ArgsOk(item, args)
    ensures var args1 := AfterStar(item.width, args);
            && StarOk(item.width, args) && StarOk(item.precision, args1)
            && ConvArgOk(item.conv, AfterStar(item.precision, args1))
            && ItemOutput(item, args) ==
                 Converted(item.conv, item.length, FlagsOf(item), SizeValue(item.width, args, 0),
                           SizeValue(item.precision, args1, 1), AfterStar(item.precision, args1))
            && IsoItem(item, args) ==
                 IsoConverted(item.conv, item.length, IsoSize(item.width, args), IsoSize(item.precision, args1),
                              IsoFlags(item), args[Taken(item) - 1])
            && (ItemAgrees(item, args) <==>
                 ConvertedAgrees(item.conv, item.length, IsoSize(item.width, args), IsoSize(item.precision, args1),
                                 IsoFlags(item), args[Taken(item) - 1]))
  {
    hide Value, Converted, IsoConverted, ConvertedAgrees;
  }

  /** Every item of a format prints what the standard says exactly under the condition ItemAgrees. */
  lemma ItemExact(item: Item, args: seq<Arg>)
    requires ItemOk(item) && ArgsOk(item, args)
    ensures ItemOutput(item, args) == IsoItem(item, args) <==> ItemAgrees(item, args)
  {
    if item.Conversion? && item.conv != '%' {
      OutputIs(item, args);
      PartsAre(item, args);
      hide ItemOutput, IsoItem, ItemAgrees, Converted, IsoConverted, ConvertedAgrees, IsoSize, IsoFlags, SizeValue;
      var args1 := AfterStar(item.width, args);
      ConvertedExact(item.conv, item.length, IsoSize(item.width, args), IsoSize(item.precision, args1),
          IsoFlags(item), AfterStar(item.precision, args1));
    }
  }

  predicate AllAgree(items: seq<Item>, args: seq<Arg>)
    requires AllOk(items, args)
  {
    items == [] || (ItemAgrees(items[0], args) && AllAgree(items[1..], ArgsLeft(items[0], args)))
  }

  /** A format all of whose items meet the condition is printed as the standard says. */
  lemma {:induction false} OutputAgrees(items: seq<Item>, args: seq<Arg>)
    requires AllOk(items, args) && AllAgree(items, args)
    ensures Output(items, args) == IsoOutput(items, args)
    decreases |items|
  {
    hide ItemOutput, IsoItem, ItemAgrees, ItemOk;
    if items != [] {
      TakenIs(items[0], args);
      ItemExact(items[0], args);
      OutputAgrees(items[1..], ArgsLeft(items[0], args));
    }
  }

  // ---- what is printed, read back ----

  /** The word an integer conversion prints: the low bits that its length leaves of the argument. */
  function Printable(item: Item, args: seq<Arg>): word
    requires item.Conversion? && ArgsOk(item, args) && item.conv != '%' && item.conv != 's'
  {
    IsoArgument('u', if item.conv == 'p' then LengthNone else item.length, args[Taken(item) - 1].w)
  }

  /** The precision, 1 if there is none. */
  function DigitsAsked(item: Item, args: seq<Arg>): int
    requires item.Conversion? && ArgsOk(item, args)
  {
    CodePrecision(IsoSize(item.precision, if item.width.Star? then args[1..] else args), IsoFlags(item))
  }

  lemma NumberItem(item: Item, args: seq<Arg>)
    requires item.Conversion? && ArgsOk(item, args) && (IsNumber(item.conv) || item.conv == 'p')
    ensures ItemOutput(item, args) ==
              Number(Printable(item, args), Base(item.conv), IsoSize(item.width, args), DigitsAsked(item, args),
                     CodeFlags(item.conv, IsoFlags(item)))
  {
    hide ItemOutput, IsoItem, ItemAgrees, IsoSize, SizeValue, IsoFlags, FlagsOf, Converted, IsoConverted;
    hide ConvertedAgrees, Number, CodePrecision, CodeFlags, Base;
    OutputIs(item, args);
    PartsAre(item, args);
    PrintableIs(item, args);
    var args1 := AfterStar(item.width, args);
    ConvertedIs(item.conv, item.length, IsoSize(item.width, args), IsoSize(item.precision, args1), IsoFlags(item),
        AfterStar(item.precision, args1));
  }

  lemma PrintableIs(item: Item, args: seq<Arg>)
    requires item.Conversion? && ArgsOk(item, args) && item.conv != '%' && item.conv != 's'
    ensures args[Taken(item) - 1].Word?
    ensures Printable(item, args) ==
              var w := args[Taken(item) - 1].w; if item.conv == 'p' then w else Narrow(w, item.length)
  {
  }

  /**
   Whatever the flags and sizes, d and i print the signed and u the unsigned decimal of these bits, unless they
   are all 0 and no digit is asked for.
   */
  lemma ItemReadsBack(item: Item, args: seq<Arg>)
    requires item.Conversion? && ArgsOk(item, args) && (item.conv == 'd' || item.conv == 'i' || item.conv == 'u')
    requires DigitsAsked(item, args) > 0 || Printable(item, args) != 0
    ensures ReadBack(ItemOutput(item, args)) == Operand(item.conv, Printable(item, args))
  {
    NumberItem(item, args);
    hide ItemOutput, IsoSize, Number, ReadBack, DigitsAsked, Printable, IsoFlags;
    NumberReadsBack(Printable(item, args), IsoSize(item.width, args), DigitsAsked(item, args),
        CodeFlags(item.conv, IsoFlags(item)));
  }

  /** The digits a conversion may print. */
  function DigitsOf(conv: char): string {
    DigitsFor(if conv == 'p' then 'x' else conv)
  }

  predicate IsUnsignedBase(conv: char) {
    conv == 'o' || conv == 'x' || conv == 'X' || conv == 'p'
  }

  /** Between spaces, behind nothing but a prefix, stands a numeral of n: octal for o, else hexadecimal. */
  ghost predicate Evaluates(text: string, conv: char, n: nat, before: int, prefix: string, digits: string, after: int) {
    && text == Repeat(' ', before) + prefix + digits + Repeat(' ', after)
    && (prefix == "" || prefix == if conv == 'o' then "0" else if conv == 'X' then "0X" else "0x")
    && (forall i :: 0 <= i < |digits| ==> digits[i] in DigitsOf(conv))
    && Value(digits, if conv == 'o' then 8 else 16) == n
  }

  /**
   Whatever the flags and sizes, o prints these bits in octal and x, X and p in hexadecimal, with capital letters
   for X only.
   */
  lemma ItemEvaluates(item: Item, args: seq<Arg>) returns (before: int, prefix: string, digits: string, after: int)
    requires item.Conversion? && ArgsOk(item, args) && IsUnsignedBase(item.conv)
    ensures Evaluates(ItemOutput(item, args), item.conv, Printable(item, args), before, prefix, digits, after)
    ensures DigitsAsked(item, args) > 0 || Printable(item, args) != 0 ==> digits != ""
  {
    NumberItem(item, args);
    hide ItemOutput, IsoSize, Number, DigitsAsked, Printable, IsoFlags, Evaluates;
    before, prefix, digits, after := NumberParts(item.conv, Printable(item, args), IsoSize(item.width, args),
        DigitsAsked(item, args), CodeFlags(item.conv, IsoFlags(item)));
  }

  lemma NumberParts(conv: char, number: word, width: int, precision: int, f: Flags)
    returns (before: int, prefix: string, digits: string, after: int)
    requires IsUnsignedBase(conv) && f.uppercase == (conv == 'X')
    ensures Evaluates(Number(number, Base(conv), width, precision, f), conv, number, before, prefix, digits, after)
    ensures precision > 0 || number != 0 ==> digits != ""
  {
    var base, body := Base(conv), Body(number, Base(conv), precision, f);
    prefix := Prefix(number, base, f);
    var pad := width - |prefix| - |body|;
    var zeros := if f.zeropad && !f.left then pad else 0;
    before := if f.left || f.zeropad then 0 else pad;
    after := if f.left then pad else 0;
    digits := Repeat('0', zeros) + body;
    PrefixIs(conv, number, f);
    hide Repeat, Body, Value, Number, Prefix, DigitsOf;
    BodyValue(number, base, precision, f);
    BodyIn(conv, number, precision, f);
    ZerosValue(zeros, body, base);
    FirstOf(conv);
    InRepeats(zeros, body, DigitsOf(conv));
    PartsOf(number, base, width, precision, f, before, zeros, after);
  }

  lemma PrefixIs(conv: char, number: word, f: Flags)
    requires IsUnsignedBase(conv) && f.uppercase == (conv == 'X')
    ensures var prefix := Prefix(number, Base(conv), f);
            prefix == "" || prefix == if conv == 'o' then "0" else if conv == 'X' then "0X" else "0x"
  {
  }

  lemma FirstOf(conv: char)
    ensures '0' in DigitsOf(conv)
  {
    assert DigitsOf(conv)[0] == '0';
  }

  lemma PartsOf(number: word, base: nat, width: int, precision: int, f: Flags, before: int, zeros: int, after: int)
    requires base == 8 || base == 16
    requires var pad := width - |Prefix(number, base, f)| - |Body(number, base, precision, f)|;
             && before == (if f.left || f.zeropad then 0 else pad) && zeros == (if f.zeropad && !f.left then pad else 0)
             && after == if f.left then pad else 0
    ensures Number(number, base, width, precision, f) ==
              Repeat(' ', before) + Prefix(number, base, f) + (Repeat('0', zeros) + Body(number, base, precision, f))
              + Repeat(' ', after)
  {
    RepeatNone(' ');
    RepeatNone('0');
    hide Repeat, Body, Prefix;
    var head, body := Prefix(number, base, f), Body(number, base, precision, f);
    assert "" + head == head;
    if f.left {
      assert "" + head + ("" + body) + Repeat(' ', after) == head + body + Repeat(' ', after);
    } else if f.zeropad {
      assert "" + head + (Repeat('0', zeros) + body) + "" == head + Repeat('0', zeros) + body;
    } else {
      assert Repeat(' ', before) + head + ("" + body) + "" == Repeat(' ', before) + head + body;
    }
  }

  lemma InRepeats(n: int, body: string, digits: string)
    requires '0' in digits && forall i :: 0 <= i < |body| ==> body[i] in digits
    ensures forall i :: 0 <= i < |Repeat('0', n) + body| ==> (Repeat('0', n) + body)[i] in digits
  {
  }

  lemma BodyIn(conv: char, number: word, precision: int, f: Flags)
    requires IsUnsignedBase(conv) && f.uppercase == (conv == 'X')
    ensures forall i :: 0 <= i < |Body(number, Base(conv), precision, f)| ==>
              Body(number, Base(conv), precision, f)[i] in DigitsOf(conv)
    ensures precision > 0 || number != 0 ==> Body(number, Base(conv), precision, f) != ""
  {
    var digits := Digits(number, Base(conv), f.uppercase);
    SameNumeral(number, Base(conv), f.uppercase, DigitsOf(conv));
    LettersOf(conv);
    assert Body(number, Base(conv), precision, f) == Repeat('0', precision - |digits|) + digits;
    hide Digits, Numeral, Repeat, DigitsOf, Body;
    NumeralIn(number, DigitsOf(conv));
    FirstDigit(number, DigitsOf(conv));
    InRepeats(precision - |digits|, digits, DigitsOf(conv));
    if precision > 0 || number != 0 {
      SomeBody(precision, digits);
    }
  }

  lemma LettersOf(conv: char)
    ensures Letters(DigitsOf(conv))
  {
    if conv == 'o' {
      assert Letters("01234567");
    } else if conv == 'x' || conv == 'p' {
      assert Letters("0123456789abcdef");
    } else if conv == 'X' {
      assert Letters("0123456789ABCDEF");
    } else {
      assert Letters("0123456789");
    }
  }

  /** Digits, of which the first alone is 0. */
  ghost predicate Letters(digits: string) {
    && |digits| >= 2 && '0' in digits && (forall i :: 0 < i < |digits| ==> digits[i] != '0')
    && forall i :: 0 <= i < |digits| ==> digits[i] != ' ' && digits[i] != '+' && digits[i] != '-'
  }

  lemma SomeBody(precision: int, digits: string)
    requires precision > 0 || digits != ""
    ensures Repeat('0', precision - |digits|) + digits != ""
  {
    RepeatLength('0', precision - |digits|);
  }

  lemma {:induction false} NumeralIn(n: nat, digits: string)
    requires |digits| >= 2
    ensures forall i :: 0 <= i < |Numeral(n, digits)| ==> Numeral(n, digits)[i] in digits
    decreases n
  {
    if n > 0 {
      NumeralIn(n / |digits|, digits);
    }
  }
}
