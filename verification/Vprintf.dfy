/**
 The format-walking loop of vprintf (kernel/modules/video/kprintf.c:343-571). A format is the text of a list
 of items, literal characters and conversions; the walk has to find the items again and print each of them.
 */
module Vprintf {
  import opened Pmm
  import opened Kprintf

  /** What va_arg delivers: a 32-bit word, or the string a pointer leads to. */
  datatype Arg = Word(w: word) | Text(s: string)

  datatype Size = Absent | Star | Given(digits: string)

  datatype Length = LengthNone | LengthHH | LengthH | LengthL | LengthLL

  datatype Item = Literal(c: char) | Conversion(flags: string, width: Size, precision: Size, length: Length, conv: char)

  const LIMIT := 0x1000_0000  // of widths and precisions, far from the ends of int32_t

  // ---- the text of a format ----

  predicate IsFlag(c: char) {
    c == '-' || c == '+' || c == ' ' || c == '#' || c == '0'
  }

  predicate IsConv(c: char) {
    || c == 'd' || c == 'i' || c == 'u' || c == 'x' || c == 'X' || c == 'o' || c == 'p'
    || c == 'c' || c == 's' || c == '%'
  }

  function SizeText(size: Size): string {
    match size
    case Absent => ""
    case Star => "*"
    case Given(digits) => digits
  }

  function LengthText(length: Length): string {
    match length
    case LengthNone => ""
    case LengthHH => "hh"
    case LengthH => "h"
    case LengthL => "l"
    case LengthLL => "ll"
  }

  function PrecisionText(precision: Size): string {
    if precision.Absent? then "" else "." + SizeText(precision)
  }

  function ItemText(item: Item): string {
    match item
    case Literal(c) => [c]
    case Conversion(flags, width, precision, length, conv) =>
      "%" + flags + SizeText(width) + PrecisionText(precision) + LengthText(length) + [conv]
  }

  function FormatText(items: seq<Item>): string {
    if items == [] then "" else ItemText(items[0]) + FormatText(items[1..])
  }

  predicate SizeOk(size: Size) {
    size.Given? ==> (forall i :: 0 <= i < |size.digits| ==> IsDigit(size.digits[i])) && Value(size.digits, 10) <= LIMIT
  }

  /** A width in digits is not empty and does not start with 0, which would be a flag. */
  predicate ItemOk(item: Item) {
    match item
    case Literal(c) => c != '%' && c != '\0'
    case Conversion(flags, width, precision, length, conv) =>
      && (forall i :: 0 <= i < |flags| ==> IsFlag(flags[i]))
      && SizeOk(width) && (width.Given? ==> width.digits != "" && width.digits[0] != '0')
      && SizeOk(precision) && IsConv(conv)
  }

  // ---- what it means ----

  function Signed(w: word): (r: int32) {
    if w >= 0x8000_0000 then w - 0x1_0000_0000 else w
  }

  /** get_argument: the words of the short types are cut, without regard to a sign. */
  function Narrow(w: word, length: Length): word {
    match length
    case LengthHH => w % 0x100
    case LengthH => w % 0x1_0000
    case _ => w
  }

  function FlagsOf(item: Item): Flags
    requires item.Conversion?
  {
    Flags('-' in item.flags, '+' in item.flags, ' ' in item.flags, '#' in item.flags,
          '0' in item.flags && item.precision.Absent?, item.conv == 'd' || item.conv == 'i', item.conv == 'X',
          !item.precision.Absent?)
  }

  /** Whether the next argument can be a width or precision given by `*`. */
  predicate StarOk(size: Size, args: seq<Arg>) {
    size.Star? ==> args != [] && args[0].Word? && -LIMIT <= Signed(args[0].w) <= LIMIT
  }

  function AfterStar(size: Size, args: seq<Arg>): seq<Arg> {
    if size.Star? && args != [] then args[1..] else args
  }

  function SizeValue(size: Size, args: seq<Arg>, absent: int32): int
    requires StarOk(size, args)
  {
    match size
    case Absent => absent
    case Star => Signed(args[0].w)
    case Given(digits) => Value(digits, 10)
  }

  predicate ConvArgOk(conv: char, args: seq<Arg>) {
    if conv == '%' then true
    else if conv == 's' then args != [] && args[0].Text? && |args[0].s| <= LIMIT
    else args != [] && args[0].Word?
  }

  /** The arguments an item takes are there and of the right kind. */
  predicate ArgsOk(item: Item, args: seq<Arg>) {
    item.Conversion? ==>
      var args1 := AfterStar(item.width, args);
      var args2 := AfterStar(item.precision, args1);
      StarOk(item.width, args) && StarOk(item.precision, args1) && ConvArgOk(item.conv, args2)
  }

  function ArgsLeft(item: Item, args: seq<Arg>): seq<Arg> {
    if item.Literal? then args
    else
      var args2 := AfterStar(item.precision, AfterStar(item.width, args));
      if item.conv == '%' || args2 == [] then args2 else args2[1..]
  }

  function Base(conv: char): nat {
    if conv == 'o' then 8 else if conv == 'd' || conv == 'i' || conv == 'u' then 10 else 16
  }

  /** The flags with those that the conversion character adds. */
  function WithConv(f: Flags, conv: char): Flags {
    f.(signed := conv == 'd' || conv == 'i', uppercase := conv == 'X')
  }

  /** The text of one conversion, given its width, precision and argument. */
  function Converted(conv: char, length: Length, f0: Flags, width: int, precision: int, args: seq<Arg>): string
    requires ConvArgOk(conv, args)
  {
    var f := WithConv(f0, conv);
    if conv == '%' then "%"
    else if conv == 's' then Field(Shown(args[0].s, precision, f), TextPad(args[0].s, width, precision, f), f)
    else if conv == 'c' then Field([(args[0].w % 0x100) as char], width - 1, f)
    else
      var number := if conv == 'p' then args[0].w else Narrow(args[0].w, length);
      Number(number, Base(conv), width, precision, f)
  }

  function ItemOutput(item: Item, args: seq<Arg>): string
    requires ArgsOk(item, args)
  {
    match item
    case Literal(c) => [c]
    case Conversion(_, width, precision, _, _) =>
      var args1 := AfterStar(width, args);
      Converted(item.conv, item.length, FlagsOf(item), SizeValue(width, args, 0), SizeValue(precision, args1, 1),
                AfterStar(precision, args1))
  }

  /** What vprintf adds to its count: for %c always 2, whatever the width. */
  function ItemCount(item: Item, args: seq<Arg>): nat
    requires ArgsOk(item, args)
  {
    if item.Conversion? && item.conv == 'c' then 2 else |ItemOutput(item, args)|
  }

  predicate AllOk(items: seq<Item>, args: seq<Arg>) {
    items == [] || (ItemOk(items[0]) && ArgsOk(items[0], args) && AllOk(items[1..], ArgsLeft(items[0], args)))
  }

  function Output(items: seq<Item>, args: seq<Arg>): string
    requires AllOk(items, args)
  {
    if items == [] then "" else ItemOutput(items[0], args) + Output(items[1..], ArgsLeft(items[0], args))
  }

  function Count(items: seq<Item>, args: seq<Arg>): nat
    requires AllOk(items, args)
  {
    if items == [] then 0 else ItemCount(items[0], args) + Count(items[1..], ArgsLeft(items[0], args))
  }

  // ---- reading a format ----

  /** *format: the text is followed by NUL, and nothing behind that may be read. */
  function At(format: string, pos: nat): char
    requires pos <= |format|
  {
    if pos < |format| then format[pos] else '\0'
  }

  function FlagsIn(s: string): Flags {
    Flags('-' in s, '+' in s, ' ' in s, '#' in s, '0' in s, false, false, false)
  }

  /** A C string holds no NUL before its end. */
  predicate CString(format: string) {
    forall i :: 0 <= i < |format| ==> format[i] != '\0'
  }

  /** From p to q: a `*`, or all the digits there are. */
  ghost predicate SizeAt(format: string, p: nat, q: nat) {
    && p <= q <= |format|
    && if At(format, p) == '*' then q == p + 1
       else (forall i :: p <= i < q ==> IsDigit(format[i])) && !IsDigit(At(format, q))
  }

  ghost predicate FlagsAt(format: string, p: nat, q: nat) {
    p <= q <= |format| && (forall i :: p <= i < q ==> IsFlag(format[i])) && !IsFlag(At(format, q))
  }

  ghost predicate PrecisionAt(format: string, p: nat, q: nat) {
    p <= |format| && if At(format, p) == '.' then SizeAt(format, p + 1, q) else q == p
  }

  ghost predicate LengthAt(format: string, p: nat, q: nat) {
    && p <= |format|
    && if At(format, p) == 'h' || At(format, p) == 'l'
       then q == if At(format, p + 1) == At(format, p) then p + 2 else p + 1
       else q == p
  }

  /** The parts of a conversion in their order, each as long as can be; only the format's end may cut it short. */
  ghost predicate DirectiveAt(format: string, p: nat, q: nat) {
    && p < |format| && format[p] == '%' && q <= |format|
    && exists flags, width, precision, length: nat ::
         && FlagsAt(format, p + 1, flags) && SizeAt(format, flags, width) && PrecisionAt(format, width, precision)
         && LengthAt(format, precision, length) && q == if length < |format| then length + 1 else length
  }

  /** A size read from p to q: the next argument for `*`, else the value of the digits if an int32_t holds it. */
  ghost predicate SizeRead(format: string, p: nat, q: nat, args0: seq<Arg>, value: int32, args: seq<Arg>) {
    && SizeAt(format, p, q)
    && if At(format, p) == '*'
       then args == (if args0 == [] then [] else args0[1..])
         && (args0 != [] && args0[0].Word? ==> value == Signed(args0[0].w))
       else args == args0 && (Value(format[p..q], 10) <= INT32_MAX ==> value == Value(format[p..q], 10))
  }

  /** A precision, also one without digits, switches zero padding off; without one it is 1. */
  ghost predicate PrecisionRead(format: string, p: nat, q: nat, args0: seq<Arg>, f0: Flags, value: int32,
      args: seq<Arg>, f: Flags)
  {
    && p <= |format|
    && if At(format, p) == '.'
       then SizeRead(format, p + 1, q, args0, value, args) && f == f0.(zeropad := false, precision := true)
       else q == p && value == 1 && args == args0 && f == f0
  }

  function LengthIn(format: string, p: nat): Length
    requires p <= |format|
  {
    if At(format, p) == 'h' then if At(format, p + 1) == 'h' then LengthHH else LengthH
    else if At(format, p) == 'l' then if At(format, p + 1) == 'l' then LengthLL else LengthL
    else LengthNone
  }

  // ---- the code ----

  /** kprintf.c:370-403. */
  method ReadFlags(format: string, pos0: nat) returns (pos: nat, f: Flags)
    requires pos0 <= |format|
    ensures FlagsAt(format, pos0, pos) && f == FlagsIn(format[pos0..pos])
  {
    pos, f := pos0, FlagsIn("");
    while IsFlag(At(format, pos))
      invariant pos0 <= pos <= |format| && f == FlagsIn(format[pos0..pos])
      invariant forall i :: pos0 <= i < pos ==> IsFlag(format[i])
      decreases |format| - pos
    {
      assert format[pos0..pos + 1] == format[pos0..pos] + [format[pos]];
      match At(format, pos) {
        case '-' => f := f.(left := true);
        case '+' => f := f.(plus := true);
        case ' ' => f := f.(space := true);
        case '#' => f := f.(hash := true);
        case _ => f := f.(zeropad := true);
      }
      pos := pos + 1;
    }
  }

  /** kprintf.c:406-414, and the same for a precision at 423-428. What va_arg gives behind the arguments is open. */
  method ReadSize(format: string, pos0: nat, args0: seq<Arg>) returns (value: int32, pos: nat, args: seq<Arg>)
    requires pos0 <= |format|
    ensures SizeRead(format, pos0, pos, args0, value, args)
  {
    if At(format, pos0) == '*' {
      value := *;
      args := if args0 == [] then [] else args0[1..];
      if args0 != [] && args0[0].Word? {
        value := Signed(args0[0].w);
      }
      return value, pos0 + 1, args;
    }
    hide Value;
    args := args0;
    value, pos := Atoi(format, pos0);
    assert format[pos0..][..pos - pos0] == format[pos0..pos];
    forall i | pos0 <= i < pos ensures IsDigit(format[i]) {
      assert format[i] == format[pos0..][i - pos0];
    }
    assert pos < |format| ==> format[pos] == format[pos0..][pos - pos0];
  }

  /** kprintf.c:417-429. */
  method ReadPrecision(format: string, pos0: nat, args0: seq<Arg>, f0: Flags)
    returns (value: int32, pos: nat, args: seq<Arg>, f: Flags)
    requires pos0 <= |format|
    ensures PrecisionRead(format, pos0, pos, args0, f0, value, args, f)
  {
    hide SizeRead;
    value, pos, args, f := 1, pos0, args0, f0;
    if At(format, pos) == '.' {
      f := f.(zeropad := false);
      f := f.(precision := true);
      pos := pos + 1;
      value, pos, args := ReadSize(format, pos, args);
    }
  }

  /** kprintf.c:432-466: j, z and t are not stepped over. */
  method ReadLength(format: string, pos0: nat) returns (pos: nat, length: Length)
    requires pos0 <= |format|
    ensures pos0 <= pos <= |format| && LengthAt(format, pos0, pos) && length == LengthIn(format, pos0)
  {
    pos, length := pos0, LengthNone;
    if At(format, pos) == 'h' {
      pos := pos + 1;
      if At(format, pos) == 'h' {
        pos := pos + 1;
        length := LengthHH;
      } else {
        length := LengthH;
      }
    } else if At(format, pos) == 'l' {
      pos := pos + 1;
      if At(format, pos) == 'l' {
        pos := pos + 1;
        length := LengthLL;
      } else {
        length := LengthL;
      }
    }
  }

  /** The positions between the parts of a conversion, and the arguments left behind its width. */
  datatype Header = Header(flags: nat, width: nat, precision: nat, args: seq<Arg>)

  ghost predicate HeaderRead(format: string, pos0: nat, args0: seq<Arg>, h: Header, pos: nat, args: seq<Arg>,
      width: int32, precision: int32, length: Length, f: Flags)
  {
    && pos0 < h.flags <= h.width <= h.precision <= pos <= |format|
    && FlagsAt(format, pos0 + 1, h.flags) && SizeRead(format, h.flags, h.width, args0, width, h.args)
    && PrecisionRead(format, h.width, h.precision, h.args, FlagsIn(format[pos0 + 1..h.flags]), precision, args, f)
    && LengthAt(format, h.precision, pos) && length == LengthIn(format, h.precision)
  }

  /** kprintf.c:367-466: what stands between the `%` and the conversion character. */
  method ReadHeader(format: string, pos0: nat, args0: seq<Arg>)
    returns (pos: nat, args: seq<Arg>, width: int32, precision: int32, length: Length, f: Flags, ghost h: Header)
    requires pos0 < |format|
    ensures HeaderRead(format, pos0, args0, h, pos, args, width, precision, length, f)
  {
    hide FlagsAt, SizeRead, PrecisionRead, LengthAt, LengthIn, FlagsIn;
    pos, f := ReadFlags(format, pos0 + 1);
    FlagsBounds(format, pos0 + 1, pos);
    ghost var flags := pos;
    width, pos, args := ReadSize(format, pos, args0);
    SizeBounds(format, flags, pos, args0, width, args);
    h := Header(flags, pos, 0, args);
    precision, pos, args, f := ReadPrecision(format, pos, args, f);
    PrecisionBounds(format, h.width, pos, h.args, FlagsIn(format[pos0 + 1..flags]), precision, args, f);
    h := h.(precision := pos);
    pos, length := ReadLength(format, pos);
  }

  lemma FlagsBounds(format: string, p: nat, q: nat)
    requires FlagsAt(format, p, q)
    ensures p <= q <= |format|
  {
  }

  lemma SizeBounds(format: string, p: nat, q: nat, args0: seq<Arg>, value: int32, args: seq<Arg>)
    requires SizeRead(format, p, q, args0, value, args)
    ensures p <= q <= |format|
  {
  }

  lemma PrecisionBounds(format: string, p: nat, q: nat, args0: seq<Arg>, f0: Flags, value: int32, args: seq<Arg>,
      f: Flags)
    requires PrecisionRead(format, p, q, args0, f0, value, args, f)
    ensures p <= q <= |format|
  {
  }

  /** format_char: the count it returns is 1 for every width. */
  method FormatChar(c: char, width0: int32, f: Flags) returns (out: string, printed: int32)
    requires -LIMIT <= width0 <= LIMIT
    ensures out == Field([c], width0 - 1, f) && printed == 1
  {
    var width: int32 := width0 - 1;
    var ignored: int32 := 0;
    out := "";
    if !f.left {
      out, ignored := Pad(out, ignored, ' ', width);
      width := Min(width, 0);
    }
    out := out + [c];
    ignored := 0;
    out, ignored := Pad(out, ignored, ' ', width);
    printed := 1;
  }

  /** kprintf.c:472-555: a conversion with an argument of its kind. */
  method Convert(conv: char, width: int32, precision: int32, length: Length, f0: Flags, args0: seq<Arg>)
    returns (out: string, printed: int32, args: seq<Arg>)
    requires IsConv(conv) && ConvArgOk(conv, args0) && !f0.signed && !f0.uppercase
    requires -LIMIT <= width <= LIMIT && -LIMIT <= precision <= LIMIT
    ensures out == Converted(conv, length, f0, width, precision, args0)
    ensures printed == if conv == 'c' then 2 else |out|
    ensures args == if conv == '%' then args0 else args0[1..]
  {
    hide Number, Content, Value, Field, Shown, TextPad, Kprintf.Text;
    if conv == '%' {
      return "%", 1, args0;
    }
    args := args0[1..];
    if conv == 's' {
      out, printed := FormatString(args0[0].s, width, precision, f0);
    } else if conv == 'c' {
      out, printed := FormatChar((args0[0].w % 0x100) as char, width, f0);
      printed := printed + 1;
    } else {
      var f := f0;
      if conv == 'd' || conv == 'i' {
        f := f.(signed := true);
      } else if conv == 'X' {
        f := f.(uppercase := true);
      }
      var argument := if conv == 'p' then args0[0].w else Narrow(args0[0].w, length);
      out, printed := FormatNumber(argument, Base(conv), width, precision, f);
    }
  }

  /**
   kprintf.c:472-564 for any character: without an argument of the right kind, or with sizes near the ends of an
   int32_t, what is printed is left open; n prints nothing, and so does a character that is no conversion.
   */
  method ConvertAny(conv: char, width: int32, precision: int32, length: Length, f: Flags, args0: seq<Arg>)
    returns (out: string, printed: int32, args: seq<Arg>)
    requires !f.signed && !f.uppercase
    ensures (IsConv(conv) && ConvArgOk(conv, args0) && -LIMIT <= width <= LIMIT && -LIMIT <= precision <= LIMIT) ==>
              && out == Converted(conv, length, f, width, precision, args0)
              && printed == (if conv == 'c' then 2 else |out|)
              && args == if conv == '%' then args0 else args0[1..]
    ensures !IsConv(conv) ==> out == "" && printed == 0
  {
    hide Converted;
    if IsConv(conv) && ConvArgOk(conv, args0) && -LIMIT <= width <= LIMIT && -LIMIT <= precision <= LIMIT {
      out, printed, args := Convert(conv, width, precision, length, f, args0);
      return;
    }
    out, printed, args := "", 0, args0;
    if IsConv(conv) {
      out, printed := *, *;
    }
    if (IsConv(conv) || conv == 'n') && args0 != [] {
      args := args0[1..];
    }
  }

  lemma AtStart(format: string, pos: nat, text: string)
    requires pos <= |format| && format[pos..] == text && text != ""
    ensures pos < |format| && At(format, pos) == text[0]
  {
  }

  lemma TextLength(item: Item)
    requires item.Conversion?
    ensures |ItemText(item)| ==
              2 + |item.flags| + |SizeText(item.width)| + |PrecisionText(item.precision)| + |LengthText(item.length)|
  {
  }

  lemma Takes(item: Item, args: seq<Arg>)
    requires item.Conversion? && ItemOk(item) && ArgsOk(item, args)
    ensures forall i :: 0 <= i < |item.flags| ==> IsFlag(item.flags[i])
    ensures SizeOk(item.width) && SizeOk(item.precision) && !FlagsIn(item.flags).precision
    ensures var args1 := AfterStar(item.width, args);
            var args2 := AfterStar(item.precision, args1);
            && StarOk(item.width, args) && StarOk(item.precision, args1) && ConvArgOk(item.conv, args2)
            && ItemOutput(item, args) ==
                 Converted(item.conv, item.length, FlagsOf(item), SizeValue(item.width, args, 0),
                           SizeValue(item.precision, args1, 1), args2)
            && ArgsLeft(item, args) == if item.conv == '%' then args2 else args2[1..]
  {
    hide Value, Converted;
  }

  /** The text of a conversion stands at a position, with arguments to match. */
  ghost predicate ItemHere(format: string, pos0: nat, args0: seq<Arg>, item: Item, rest: string) {
    && pos0 < |format| && format[pos0..] == ItemText(item) + rest
    && item.Conversion? && ItemOk(item) && ArgsOk(item, args0)
  }

  /** kprintf.c:367-566: one conversion; end says that the walk leaves the loop. */
  method Directive(format: string, pos0: nat, args0: seq<Arg>, ghost item: Item, ghost rest: string)
    returns (out: string, printed: int32, pos: nat, args: seq<Arg>, end: bool)
    requires CString(format) && pos0 < |format| && format[pos0] == '%'
    ensures pos0 < pos <= |format| && CutAt(format, pos0, pos) && (end ==> pos == |format|)
    ensures ItemHere(format, pos0, args0, item, rest) ==>
              && ArgsOk(item, args0) && out == ItemOutput(item, args0) && printed == ItemCount(item, args0)
              && pos == pos0 + |ItemText(item)| && args == ArgsLeft(item, args0) && !end
  {
    hide *;
    var width, precision, length, f;
    ghost var h;
    pos, args, width, precision, length, f, h := ReadHeader(format, pos0, args0);
    HeaderCut(format, pos0, args0, h, pos, args, width, precision, length, f);
    ghost var here := ItemHere(format, pos0, args0, item, rest);
    if here {
      HeaderMeans(format, pos0, args0, item, rest, h, pos, args, width, precision, length, f);
    }
    AtNul(format, pos);
    if At(format, pos) == '\0' {
      return "", 0, pos, args, true;
    }
    out, printed, args := ConvertAny(At(format, pos), width, precision, length, f, args);
    if here {
      ConvertedItem(format, pos0, args0, item, rest);
    }
    return out, printed, pos + 1, args, false;
  }

  lemma HeaderCut(format: string, pos0: nat, args0: seq<Arg>, h: Header, pos: nat, args: seq<Arg>,
      width: int32, precision: int32, length: Length, f: Flags)
    requires CString(format) && pos0 < |format| && format[pos0] == '%'
    requires HeaderRead(format, pos0, args0, h, pos, args, width, precision, length, f)
    ensures pos0 < pos <= |format| && !f.signed && !f.uppercase
    ensures CutAt(format, pos0, if pos < |format| then pos + 1 else pos)
  {
    hide FlagsAt, SizeAt, LengthAt, LengthIn, Value;
    assert SizeAt(format, h.flags, h.width) && PrecisionAt(format, h.width, h.precision);
  }

  lemma AtNul(format: string, pos: nat)
    requires CString(format) && pos <= |format|
    ensures At(format, pos) == '\0' <==> pos == |format|
  {
  }

  /** On the text of a well-formed item the header read is the item's. */
  lemma HeaderMeans(format: string, pos0: nat, args0: seq<Arg>, item: Item, rest: string, h: Header, pos: nat,
      args: seq<Arg>, width: int32, precision: int32, length: Length, f: Flags)
    requires ItemHere(format, pos0, args0, item, rest)
    requires HeaderRead(format, pos0, args0, h, pos, args, width, precision, length, f)
    ensures StarOk(item.width, args0) && width == SizeValue(item.width, args0, 0) && -LIMIT <= width <= LIMIT
    ensures StarOk(item.precision, AfterStar(item.width, args0)) && -LIMIT <= precision <= LIMIT
    ensures precision == SizeValue(item.precision, AfterStar(item.width, args0), 1)
    ensures args == AfterStar(item.precision, AfterStar(item.width, args0)) && length == item.length
    ensures f == FlagsOf(item).(signed := false, uppercase := false)
    ensures pos + 1 == pos0 + |ItemText(item)| && pos < |format| && At(format, pos) == item.conv != '\0'
  {
    var tail1, tail2, tail3, tail4 := Tails(item, rest);
    TextLength(item);
    FlagsRead(item);
    Takes(item, args0);
    assert item.conv != '\0';
    hide *;
    HeaderParts(format, pos0, args0, h, pos, args, width, precision, length, f);
    FlagsMean(format, pos0, item.flags, tail1, h.flags);
    SizeMeans(format, h.flags, h.width, item.width, tail2, args0, width, h.args);
    PrecisionMeans(format, h.width, h.precision, item.precision, tail3, h.args, FlagsIn(item.flags), precision, args,
        f);
    LengthMeans(format, h.precision, pos, item.length, tail4);
    AtStart(format, pos, tail4);
  }

  lemma FlagsMean(format: string, pos0: nat, flags: string, rest: string, q: nat)
    requires pos0 <= |format| && format[pos0..] == "%" + (flags + rest) && rest != "" && !IsFlag(rest[0])
    requires forall i :: 0 <= i < |flags| ==> IsFlag(flags[i])
    requires FlagsAt(format, pos0 + 1, q)
    ensures q == pos0 + 1 + |flags| && q <= |format| && format[pos0 + 1..q] == flags && format[q..] == rest
  {
    hide *;
    AtPercent(format, pos0, flags + rest);
    FlagsFound(format, pos0 + 1, flags, rest);
    FlagsUnique(format, pos0 + 1, q, pos0 + 1 + |flags|);
    Middle(format, pos0 + 1, flags, rest);
  }

  lemma HeaderParts(format: string, pos0: nat, args0: seq<Arg>, h: Header, pos: nat, args: seq<Arg>,
      width: int32, precision: int32, length: Length, f: Flags)
    requires HeaderRead(format, pos0, args0, h, pos, args, width, precision, length, f)
    ensures pos0 < h.flags <= h.width <= h.precision <= pos <= |format|
    ensures FlagsAt(format, pos0 + 1, h.flags) && SizeRead(format, h.flags, h.width, args0, width, h.args)
    ensures PrecisionRead(format, h.width, h.precision, h.args, FlagsIn(format[pos0 + 1..h.flags]), precision, args, f)
    ensures LengthAt(format, h.precision, pos) && length == LengthIn(format, h.precision)
  {
  }

  lemma Middle(format: string, p: nat, text: string, rest: string)
    requires p <= |format| && format[p..] == text + rest
    ensures p + |text| <= |format| && format[p..p + |text|] == text
  {
    assert format[p..][..|text|] == text;
  }

  lemma FlagsUnique(format: string, p: nat, q: nat, r: nat)
    requires FlagsAt(format, p, q) && FlagsAt(format, p, r)
    ensures q == r
  {
  }

  lemma SizeUnique(format: string, p: nat, q: nat, r: nat)
    requires SizeAt(format, p, q) && SizeAt(format, p, r)
    ensures q == r
  {
  }

  lemma LengthUnique(format: string, p: nat, q: nat, r: nat)
    requires LengthAt(format, p, q) && LengthAt(format, p, r)
    ensures q == r
  {
  }

  lemma SizeMeans(format: string, p: nat, q: nat, size: Size, rest: string, args0: seq<Arg>, value: int32,
      args: seq<Arg>)
    requires p <= |format| && format[p..] == SizeText(size) + rest && SizeOk(size) && StarOk(size, args0)
    requires rest != "" && !IsDigit(rest[0]) && rest[0] != '*'
    requires SizeRead(format, p, q, args0, value, args)
    ensures q == p + |SizeText(size)| && q <= |format| && format[q..] == rest && args == AfterStar(size, args0)
    ensures value == SizeValue(size, args0, 0) && -LIMIT <= value <= LIMIT
  {
    hide SizeAt, Value;
    SizeFound(format, p, size, rest);
    assert SizeAt(format, p, q);
    SizeUnique(format, p, q, p + |SizeText(size)|);
    Middle(format, p, SizeText(size), rest);
    AtStart(format, p, SizeText(size) + rest);
    EmptyValue("");
    assert size.Given? && size.digits != "" ==> IsDigit(size.digits[0]);
    assert size.Given? && size.digits == "" ==> SizeText(size) + rest == rest;
    assert size.Absent? ==> SizeText(size) + rest == rest;
  }

  lemma PrecisionMeans(format: string, p: nat, q: nat, size: Size, rest: string, args0: seq<Arg>, f0: Flags,
      value: int32, args: seq<Arg>, f: Flags)
    requires p <= |format| && format[p..] == PrecisionText(size) + rest && SizeOk(size) && StarOk(size, args0)
    requires rest != "" && !IsDigit(rest[0]) && rest[0] != '*' && rest[0] != '.' && !f0.precision
    requires PrecisionRead(format, p, q, args0, f0, value, args, f)
    ensures q == p + |PrecisionText(size)| && q <= |format| && format[q..] == rest && args == AfterStar(size, args0)
    ensures value == SizeValue(size, args0, 1) && -LIMIT <= value <= LIMIT
    ensures f == f0.(zeropad := f0.zeropad && size.Absent?, precision := !size.Absent?)
  {
    hide SizeRead, SizeOk, SizeText, PrecisionText, Value;
    PrecisionParts(size, rest);
    AtStart(format, p, PrecisionText(size) + rest);
    if !size.Absent? {
      Behind(format, p, ".", SizeText(size) + rest);
      SizeMeans(format, p + 1, q, size, rest, args0, value, args);
    }
  }

  lemma LengthMeans(format: string, p: nat, q: nat, length: Length, rest: string)
    requires p <= |format| && format[p..] == LengthText(length) + rest
    requires rest != "" && rest[0] != 'h' && rest[0] != 'l'
    requires LengthAt(format, p, q)
    ensures LengthIn(format, p) == length && q == p + |LengthText(length)| && q <= |format| && format[q..] == rest
  {
    LengthFound(format, p, length, rest);
    LengthUnique(format, p, q, p + |LengthText(length)|);
    var text := LengthText(length) + rest;
    AtStart(format, p, text);
    assert |text| > 1 ==> p + 1 < |format| && At(format, p + 1) == format[p..][1] == text[1];
  }

  lemma ConvertedItem(format: string, pos0: nat, args0: seq<Arg>, item: Item, rest: string)
    requires ItemHere(format, pos0, args0, item, rest)
    ensures IsConv(item.conv) && ArgsOk(item, args0)
    ensures var args1 := AfterStar(item.width, args0);
            var args2 := AfterStar(item.precision, args1);
            && StarOk(item.width, args0) && StarOk(item.precision, args1) && ConvArgOk(item.conv, args2)
            && ItemOutput(item, args0) ==
                 Converted(item.conv, item.length, FlagsOf(item).(signed := false, uppercase := false),
                           SizeValue(item.width, args0, 0), SizeValue(item.precision, args1, 1), args2)
            && ItemCount(item, args0) == (if item.conv == 'c' then 2 else |ItemOutput(item, args0)|)
            && ArgsLeft(item, args0) == if item.conv == '%' then args2 else args2[1..]
  {
    hide Value, Number, Field, Shown, TextPad;
  }

  lemma PrecisionParts(precision: Size, rest: string)
    requires rest != "" && rest[0] != '.'
    ensures PrecisionText(precision) + rest ==
            if precision.Absent? then rest else "." + (SizeText(precision) + rest)
    ensures |PrecisionText(precision)| == if precision.Absent? then 0 else 1 + |SizeText(precision)|
    ensures (PrecisionText(precision) + rest)[0] == '.' <==> !precision.Absent?
  {
  }

  lemma Behind(format: string, pos: nat, text: string, rest: string)
    requires pos <= |format| && format[pos..] == text + rest
    ensures pos + |text| <= |format| && format[pos + |text|..] == rest
  {
    assert format[pos..][|text|..] == rest;
  }

  lemma FlagsRead(item: Item)
    requires item.Conversion?
    ensures FlagsIn(item.flags).(zeropad := FlagsIn(item.flags).zeropad && item.precision.Absent?,
                                 precision := !item.precision.Absent?)
            == FlagsOf(item).(signed := false, uppercase := false)
  {
  }

  /** Where one part of a conversion ends the next character tells so. */
  lemma Tails(item: Item, rest: string) returns (tail1: string, tail2: string, tail3: string, tail4: string)
    requires item.Conversion? && ItemOk(item)
    ensures tail4 != "" && tail4[0] == item.conv && tail4[0] != 'h' && tail4[0] != 'l'
    ensures tail3 == LengthText(item.length) + tail4
    ensures tail2 == PrecisionText(item.precision) + tail3
    ensures tail1 == SizeText(item.width) + tail2
    ensures tail1 != "" && !IsFlag(tail1[0])
    ensures tail2 != "" && !IsDigit(tail2[0]) && tail2[0] != '*'
    ensures tail3 != "" && !IsDigit(tail3[0]) && tail3[0] != '*' && tail3[0] != '.'
    ensures ItemText(item) + rest == "%" + (item.flags + tail1)
  {
    hide Value;
    tail4 := [item.conv] + rest;
    tail3 := LengthText(item.length) + tail4;
    tail2 := PrecisionText(item.precision) + tail3;
    tail1 := SizeText(item.width) + tail2;
    assert item.width.Given? ==> IsDigit(item.width.digits[0]);
    OneText("%", item.flags, SizeText(item.width), PrecisionText(item.precision), LengthText(item.length),
        [item.conv], rest);
  }

  lemma OneText(a: string, b: string, c: string, d: string, e: string, f: string, g: string)
    ensures (a + b + c + d + e + f) + g == a + (b + (c + (d + (e + (f + g)))))
  {
  }

  /** A format is the text of items, with arguments to match and an output that an int32_t can count. */
  ghost predicate IsText(format: string, items: seq<Item>, args: seq<Arg>) {
    format == FormatText(items) && AllOk(items, args) && Count(items, args) <= INT32_MAX
  }

  /** What the walk still has to print, and what it has printed. */
  ghost predicate Midway(format: string, items: seq<Item>, args0: seq<Arg>, pos: nat, left: seq<Item>, args: seq<Arg>,
      out: string, printed: int)
    requires AllOk(items, args0)
  {
    && pos <= |format| && format[pos..] == FormatText(left) && AllOk(left, args)
    && out + Output(left, args) == Output(items, args0)
    && 0 <= printed && printed + Count(left, args) == Count(items, args0) <= INT32_MAX
  }

  lemma TextParts(format: string, items: seq<Item>, args: seq<Arg>)
    requires IsText(format, items, args)
    ensures AllOk(items, args) && Midway(format, items, args, 0, items, args, "", 0)
  {
    hide AllOk, Output, Count, FormatText;
    assert format[0..] == format && "" + Output(items, args) == Output(items, args);
  }

  /** Before a turn of the loop the next item stands at the position. */
  lemma Turn(format: string, items: seq<Item>, args0: seq<Arg>, pos: nat, left: seq<Item>, args: seq<Arg>, out: string,
      printed: int)
    requires AllOk(items, args0) && Midway(format, items, args0, pos, left, args, out, printed)
    requires At(format, pos) != '\0'
    ensures left != [] && AllOk(left, args) && (left[0].Conversion? <==> At(format, pos) == '%')
    ensures left[0].Conversion? ==> ItemHere(format, pos, args, left[0], FormatText(left[1..]))
    ensures left[0].Literal? ==>
              && |ItemText(left[0])| == 1 && ArgsOk(left[0], args) && ArgsLeft(left[0], args) == args
              && ItemOutput(left[0], args) == [At(format, pos)] && ItemCount(left[0], args) == 1
  {
    hide ItemOk, ArgsOk, ItemOutput, ItemCount, ArgsLeft, ItemText, FormatText, AllOk, Output, Count;
    FirstChar(left, args);
    Unfold(left, args);
    AtStart(format, pos, FormatText(left));
  }

  /** After it the next one does. */
  lemma AfterTurn(format: string, items: seq<Item>, args0: seq<Arg>, pos: nat, left: seq<Item>, args: seq<Arg>,
      out: string, printed: int)
    requires AllOk(items, args0) && Midway(format, items, args0, pos, left, args, out, printed) && left != []
    ensures ArgsOk(left[0], args)
    ensures 0 <= printed + ItemCount(left[0], args) <= INT32_MAX
    ensures Midway(format, items, args0, pos + |ItemText(left[0])|, left[1..], ArgsLeft(left[0], args),
        out + ItemOutput(left[0], args), printed + ItemCount(left[0], args))
  {
    hide ItemOk, ArgsOk, ItemOutput, ItemCount, ArgsLeft, ItemText, FormatText, AllOk, Output, Count;
    Unfold(left, args);
    Behind(format, pos, ItemText(left[0]), FormatText(left[1..]));
  }

  lemma Finished(format: string, items: seq<Item>, args0: seq<Arg>, left: seq<Item>, args: seq<Arg>, out: string,
      printed: int)
    requires AllOk(items, args0) && Midway(format, items, args0, |format|, left, args, out, printed)
    ensures out == Output(items, args0) && printed == Count(items, args0)
  {
    hide AllOk, Output, Count, FormatText;
    MoreText(format, |format|, left, args);
    NothingLeft(args);
  }

  lemma LiteralCut(format: string, pos: nat)
    requires pos < |format| && At(format, pos) != '%'
    ensures CutAt(format, pos, pos + 1)
  {
  }

  lemma Inside(format: string, pos: nat)
    requires pos < |format|
    ensures At(format, pos) == format[pos]
  {
  }

  lemma WrapSame(x: int)
    requires 0 <= x <= INT32_MAX
    ensures Wrap(x) == x
  {
  }

  /**
   vprintf on any format, well-formed or not: it reads nothing behind the NUL, ends exactly there, and cuts the
   format into single characters and conversions. On the text of a list of items with arguments to match it
   prints the items.
   */
  method Vprintf(format: string, args0: seq<Arg>, ghost items: seq<Item>)
    returns (out: string, printed: int32, ghost cuts: seq<nat>)
    requires CString(format)
    ensures cuts != [] && cuts[0] == 0 && cuts[|cuts| - 1] == |format|
    ensures forall k :: 0 <= k < |cuts| - 1 ==> CutAt(format, cuts[k], cuts[k + 1])
    ensures IsText(format, items, args0) ==> out == Output(items, args0) && printed == Count(items, args0)
  {
    ghost var text := IsText(format, items, args0);
    hide *;
    out, printed := "", 0;
    var pos, args := 0, args0;
    ghost var left := items;
    cuts := [0];
    if text {
      TextParts(format, items, args0);
    }
    while At(format, pos) != '\0'
      invariant pos <= |format| && cuts != [] && cuts[0] == 0 && cuts[|cuts| - 1] == pos
      invariant forall k :: 0 <= k < |cuts| - 1 ==> CutAt(format, cuts[k], cuts[k + 1])
      invariant text ==> AllOk(items, args0) && Midway(format, items, args0, pos, left, args, out, printed)
      decreases |format| - pos
    {
      ghost var pos0, args1, before := pos, args, cuts;
      ghost var item, rest := Literal('?'), "";
      AtNul(format, pos);
      Inside(format, pos);
      if text {
        Turn(format, items, args0, pos, left, args, out, printed);
        AfterTurn(format, items, args0, pos, left, args, out, printed);
        WrapSame(printed + ItemCount(left[0], args));
        item, rest := left[0], FormatText(left[1..]);
        left := left[1..];
      }
      var end := false;
      if At(format, pos) != '%' {
        LiteralCut(format, pos);
        out := out + [At(format, pos)];
        printed := Wrap(printed + 1);
        pos := pos + 1;
      } else {
        var piece, count;
        piece, count, pos, args, end := Directive(format, pos, args, item, rest);
        out := out + piece;
        printed := Wrap(printed + count);
      }
      cuts := cuts + [pos];
      MoreCuts(format, before, pos0, pos);
      if end {
        break;
      }
    }
    AtNul(format, pos);
    if text {
      Finished(format, items, args0, left, args, out, printed);
    }
  }

  lemma MoreText(format: string, pos: nat, left: seq<Item>, args: seq<Arg>)
    requires pos <= |format| && format[pos..] == FormatText(left) && AllOk(left, args)
    ensures left != [] ==> At(format, pos) != '\0'
  {
    FirstChar(left, args);
    if left != [] {
      AtStart(format, pos, FormatText(left));
    }
  }

  lemma Unfold(items: seq<Item>, args: seq<Arg>)
    requires AllOk(items, args) && items != []
    ensures FormatText(items) == ItemText(items[0]) + FormatText(items[1..])
    ensures ArgsOk(items[0], args) && AllOk(items[1..], ArgsLeft(items[0], args))
    ensures Output(items, args) == ItemOutput(items[0], args) + Output(items[1..], ArgsLeft(items[0], args))
    ensures Count(items, args) == ItemCount(items[0], args) + Count(items[1..], ArgsLeft(items[0], args))
  {
  }

  lemma NothingLeft(args: seq<Arg>)
    ensures AllOk([], args) && Output([], args) == "" && Count([], args) == 0
  {
  }

  /** Every item starts with a character of its own: `%` for a conversion, something else for a literal. */
  lemma FirstChar(items: seq<Item>, args: seq<Arg>)
    requires AllOk(items, args)
    ensures items == [] ==> FormatText(items) == ""
    ensures items != [] ==> FormatText(items) != "" && FormatText(items)[0] != '\0' && ItemText(items[0]) != ""
    ensures items != [] ==> ItemOk(items[0]) && ArgsOk(items[0], args)
    ensures items != [] ==> (FormatText(items)[0] == '%' <==> items[0].Conversion?)
    ensures items != [] && items[0].Literal? ==>
              && ItemText(items[0]) == ItemOutput(items[0], args) == [FormatText(items)[0]]
              && ItemCount(items[0], args) == 1 && ArgsLeft(items[0], args) == args
  {
  }

  /** The count differs from the number of characters by 2 less the field's length for every %c. */
  function CharExcess(items: seq<Item>, args: seq<Arg>): int
    requires AllOk(items, args)
  {
    if items == [] then 0
    else
      (if items[0].Conversion? && items[0].conv == 'c'
       then 2 - Max(SizeValue(items[0].width, args, 0), 1) else 0)
      + CharExcess(items[1..], ArgsLeft(items[0], args))
  }

  lemma {:induction false} CountIs(items: seq<Item>, args: seq<Arg>)
    requires AllOk(items, args)
    ensures Count(items, args) == |Output(items, args)| + CharExcess(items, args)
    decreases |items|
  {
    if items != [] {
      CountIs(items[1..], ArgsLeft(items[0], args));
      if items[0].Conversion? && items[0].conv == 'c' {
        RepeatLength(' ', SizeValue(items[0].width, args, 0) - 1);
      }
    }
  }

  // ---- the pieces of a format ----

  lemma MoreCuts(format: string, cuts: seq<nat>, p: nat, q: nat)
    requires cuts != [] && cuts[|cuts| - 1] == p && CutAt(format, p, q)
    requires forall k :: 0 <= k < |cuts| - 1 ==> CutAt(format, cuts[k], cuts[k + 1])
    ensures var more := cuts + [q]; forall k :: 0 <= k < |more| - 1 ==> CutAt(format, more[k], more[k + 1])
  {
    hide CutAt;
  }

  ghost predicate CutAt(format: string, p: nat, q: nat) {
    p < |format| && if format[p] == '%' then DirectiveAt(format, p, q) else q == p + 1
  }

  /** The format alone decides where a piece ends. */
  lemma CutUnique(format: string, p: nat, q: nat, r: nat)
    requires CutAt(format, p, q) && CutAt(format, p, r)
    ensures q == r
  {
  }

  /** On the text of a well-formed item the piece is the item. */
  lemma CutOfItem(format: string, p: nat, item: Item, rest: string)
    requires p <= |format| && format[p..] == ItemText(item) + rest && ItemOk(item)
    ensures CutAt(format, p, p + |ItemText(item)|)
  {
    AtStart(format, p, ItemText(item) + rest);
    if item.Conversion? {
      hide *;
      CutOfConversion(format, p, item, rest);
    }
  }

  lemma CutOfConversion(format: string, p: nat, item: Item, rest: string)
    requires p < |format| && format[p..] == ItemText(item) + rest && ItemOk(item) && item.Conversion?
    ensures CutAt(format, p, p + |ItemText(item)|)
  {
    hide *;
    var tail1, tail2, tail3, tail4 := Tails(item, rest);
    TextLength(item);
    ItemParts(item);
    AtPercent(format, p, item.flags + tail1);
    var flags := p + 1 + |item.flags|;
    FlagsFound(format, p + 1, item.flags, tail1);
    var width := flags + |SizeText(item.width)|;
    SizeFound(format, flags, item.width, tail2);
    var precision := width + |PrecisionText(item.precision)|;
    PrecisionFound(format, width, item.precision, tail3);
    var length := precision + |LengthText(item.length)|;
    LengthFound(format, precision, item.length, tail4);
    AtStart(format, length, tail4);
    DirectiveFound(format, p, flags, width, precision, length);
  }

  lemma AtPercent(format: string, p: nat, rest: string)
    requires p <= |format| && format[p..] == "%" + rest
    ensures p < |format| && format[p] == '%' && format[p + 1..] == rest
  {
    Behind(format, p, "%", rest);
    assert format[p..][0] == '%';
  }

  lemma ItemParts(item: Item)
    requires ItemOk(item) && item.Conversion?
    ensures SizeOk(item.width) && SizeOk(item.precision)
    ensures forall i :: 0 <= i < |item.flags| ==> IsFlag(item.flags[i])
  {
  }

  lemma DirectiveFound(format: string, p: nat, flags: nat, width: nat, precision: nat, length: nat)
    requires p < |format| && format[p] == '%' && length < |format|
    requires FlagsAt(format, p + 1, flags) && SizeAt(format, flags, width) && PrecisionAt(format, width, precision)
    requires LengthAt(format, precision, length)
    ensures CutAt(format, p, length + 1)
  {
    hide FlagsAt, SizeAt, PrecisionAt, LengthAt;
  }

  lemma FlagsFound(format: string, p: nat, flags: string, rest: string)
    requires p <= |format| && format[p..] == flags + rest && rest != "" && !IsFlag(rest[0])
    requires forall i :: 0 <= i < |flags| ==> IsFlag(flags[i])
    ensures FlagsAt(format, p, p + |flags|) && format[p + |flags|..] == rest
  {
    Behind(format, p, flags, rest);
    AtStart(format, p + |flags|, rest);
    forall i | p <= i < p + |flags| ensures IsFlag(format[i]) {
      assert format[i] == format[p..][i - p] == flags[i - p];
    }
  }

  lemma SizeFound(format: string, p: nat, size: Size, rest: string)
    requires p <= |format| && format[p..] == SizeText(size) + rest && SizeOk(size)
    requires rest != "" && !IsDigit(rest[0]) && rest[0] != '*'
    ensures p + |SizeText(size)| <= |format| && format[p + |SizeText(size)|..] == rest
    ensures SizeAt(format, p, p + |SizeText(size)|)
  {
    hide Value;
    Behind(format, p, SizeText(size), rest);
    AtStart(format, p, SizeText(size) + rest);
    AtStart(format, p + |SizeText(size)|, rest);
    forall i | p <= i < p + |SizeText(size)| ensures format[i] == SizeText(size)[i - p] {
      assert format[i] == format[p..][i - p];
    }
  }

  lemma PrecisionFound(format: string, p: nat, size: Size, rest: string)
    requires p <= |format| && format[p..] == PrecisionText(size) + rest && SizeOk(size)
    requires rest != "" && !IsDigit(rest[0]) && rest[0] != '*' && rest[0] != '.'
    ensures p + |PrecisionText(size)| <= |format| && format[p + |PrecisionText(size)|..] == rest
    ensures PrecisionAt(format, p, p + |PrecisionText(size)|)
  {
    hide SizeAt, SizeOk;
    AtStart(format, p, PrecisionText(size) + rest);
    if !size.Absent? {
      assert PrecisionText(size) + rest == "." + (SizeText(size) + rest);
      Behind(format, p, ".", SizeText(size) + rest);
      SizeFound(format, p + 1, size, rest);
    }
  }

  lemma LengthFound(format: string, p: nat, length: Length, rest: string)
    requires p <= |format| && format[p..] == LengthText(length) + rest
    requires rest != "" && rest[0] != 'h' && rest[0] != 'l'
    ensures p + |LengthText(length)| <= |format| && format[p + |LengthText(length)|..] == rest
    ensures LengthAt(format, p, p + |LengthText(length)|)
  {
    var text := LengthText(length) + rest;
    Behind(format, p, LengthText(length), rest);
    AtStart(format, p, text);
    assert |text| > 1 ==> p + 1 < |format| && At(format, p + 1) == format[p..][1] == text[1];
  }

  // ---- the signed short types ----

  /** The value of a signed char or short conversion's argument. */
  function ShortValue(w: word, length: Length): int {
    match length
    case LengthHH => if w % 0x100 >= 0x80 then w % 0x100 - 0x100 else w % 0x100
    case LengthH => if w % 0x1_0000 >= 0x8000 then w % 0x1_0000 - 0x1_0000 else w % 0x1_0000
    case _ => Signed(w)
  }

  /** %hhd and %hd print a number that reads back as their argument exactly if it is not negative; others always do. */
  lemma ShortExact(w: word, length: Length, width: int, precision: int, f: Flags)
    requires f.signed && (precision > 0 || Narrow(w, length) != 0)
    ensures ReadBack(Number(Narrow(w, length), 10, width, precision, f)) == ShortValue(w, length) <==>
              ShortValue(w, length) >= 0 || (length != LengthHH && length != LengthH)
  {
    NumberReadsBack(Narrow(w, length), width, precision, f);
  }
}
