/**
 Integer conversions as section 7.19.6.1 of ISO/IEC 9899:1999 describes them, and exactly where
 kernel/modules/video/kprintf.c:60-189 prints the same. The standard's part names nothing of the code's.
 */
module IsoNumber {
  import opened Pmm
  import opened Kprintf
  import opened Vprintf

  // ---- the standard ----

  predicate IsNumber(conv: char) {
    conv == 'd' || conv == 'i' || conv == 'u' || conv == 'x' || conv == 'X' || conv == 'o'
  }

  predicate IsSigned(conv: char) {
    conv == 'd' || conv == 'i'
  }

  /** The digits a conversion writes its argument with: decimal, octal, and hexadecimal in the letters of x or X. */
  function DigitsFor(conv: char): (r: string)
    ensures |r| >= 8
  {
    if conv == 'o' then "01234567"
    else if conv == 'x' then "0123456789abcdef"
    else if conv == 'X' then "0123456789ABCDEF"
    else "0123456789"
  }

  /** n in the base that has as many digits, without leading zeros; empty for 0. */
  function Numeral(n: nat, digits: string): string
    requires |digits| >= 2
    decreases n
  {
    if n == 0 then "" else Numeral(n / |digits|, digits) + [digits[n % |digits|]]
  }

  /** The number that the bits of an int or unsigned int argument stand for. */
  function Operand(conv: char, number: word): int {
    if IsSigned(conv) && number >= 0x8000_0000 then number - 0x1_0000_0000 else number
  }

  function Abs(x: int): nat {
    if x < 0 then -x else x
  }

  /** Whether a precision applies: a negative one is taken as if it were omitted. */
  predicate Given(precision: int, f: Flags) {
    f.precision && precision >= 0
  }

  /** The least number of digits to appear. */
  function Least(precision: int, f: Flags): nat {
    if Given(precision, f) then precision else 1
  }

  /** Only signed conversions have a sign; the space flag is ignored beside the plus flag. */
  function IsoSign(conv: char, x: int, f: Flags): string {
    if !IsSigned(conv) then "" else if x < 0 then "-" else if f.plus then "+" else if f.space then " " else ""
  }

  function IsoPrefix(conv: char, x: int, f: Flags): string {
    if !f.hash || x == 0 then "" else if conv == 'x' then "0x" else if conv == 'X' then "0X" else ""
  }

  /** For o the # flag raises the precision, if and only if necessary, so that the first digit is a zero. */
  function IsoDigits(conv: char, x: int, precision: int, f: Flags): string {
    var digits := Numeral(Abs(x), DigitsFor(conv));
    var text := Repeat('0', Least(precision, f) - |digits|) + digits;
    if f.hash && conv == 'o' && (text == "" || text[0] != '0') then "0" + text else text
  }

  /** Padding to the field width: on the right, with zeros behind the sign and prefix, or on the left. */
  function Layout(left: bool, zero: bool, width: int, head: string, body: string): string {
    var pad := width - |head| - |body|;
    if left then head + body + Repeat(' ', pad)
    else if zero then head + Repeat('0', pad) + body
    else Repeat(' ', pad) + head + body
  }

  function IsoHead(conv: char, x: int, f: Flags): string {
    IsoSign(conv, x, f) + IsoPrefix(conv, x, f)
  }

  /** A negative field width is the minus flag; zero padding gives way to that flag and to a precision. */
  function IsoText(conv: char, x: int, width: int, precision: int, f: Flags): string {
    Layout(f.left || width < 0, f.zeropad && !Given(precision, f), Abs(width), IsoHead(conv, x, f),
           IsoDigits(conv, x, precision, f))
  }

  // ---- the code ----

  /** The code's precision: 1 where none was written. */
  function CodePrecision(precision: int, f: Flags): int {
    if f.precision then precision else 1
  }

  function CodeHead(conv: char, number: word, f: Flags): string {
    Sign(number, Base(conv), WithConv(f, conv)) + Prefix(number, Base(conv), WithConv(f, conv))
  }

  function CodeBody(conv: char, number: word, precision: int, f: Flags): string
    requires IsNumber(conv)
  {
    Body(number, Base(conv), CodePrecision(precision, f), WithConv(f, conv))
  }

  /** What format_number prints when vprintf calls it: the zero flag has been dropped for any precision. */
  function Printed(conv: char, number: word, width: int, precision: int, f: Flags): string
    requires IsNumber(conv)
  {
    Number(number, Base(conv), width, CodePrecision(precision, f),
           WithConv(f.(zeropad := f.zeropad && !f.precision), conv))
  }

  /** The code's digits are the standard's, in the base and with the letters that the conversion means. */
  lemma {:induction false} SameNumeral(n: nat, base: nat, uppercase: bool, digits: string)
    requires IsBase(base) && |digits| == base
    requires forall d :: 0 <= d < base ==> digits[d] == DigitChar(d, uppercase)
    ensures Digits(n, base, uppercase) == Numeral(n, digits)
    decreases n
  {
    LastDigit(n, base, uppercase);
    if n > 0 {
      SameNumeral(n / base, base, uppercase, digits);
    }
  }

  /** The code's reading of the conversion character and the bits is the standard's. */
  lemma SameReading(conv: char, number: word, f: Flags)
    requires IsNumber(conv)
    ensures var x, base, g := Operand(conv, number), Base(conv), WithConv(f, conv);
            && IsBase(base) && base == |DigitsFor(conv)| && (Negative(number, base, g) <==> x < 0)
            && (number == 0 <==> x == 0) && Magnitude(number, base, g) == Abs(x)
            && Digits(Abs(x), base, g.uppercase) == Numeral(Abs(x), DigitsFor(conv))
  {
    var x, base, g := Operand(conv, number), Base(conv), WithConv(f, conv);
    SameNumeral(Abs(x), base, g.uppercase, DigitsFor(conv));
  }

  /** The number in the digits the conversion means. */
  function Figures(conv: char, number: word): string {
    Numeral(Abs(Operand(conv, number)), DigitsFor(conv))
  }

  lemma CodeBodyIs(conv: char, number: word, precision: int, f: Flags)
    requires IsNumber(conv)
    ensures CodeBody(conv, number, precision, f) ==
              Repeat('0', CodePrecision(precision, f) - |Figures(conv, number)|) + Figures(conv, number)
  {
    hide Digits, Numeral, Repeat;
    SameReading(conv, number, f);
  }

  lemma CodeHeadIs(conv: char, number: word, f: Flags)
    requires IsNumber(conv)
    ensures CodeHead(conv, number, f) ==
              (if conv == 'd' || conv == 'i' || conv == 'u'
               then if Operand(conv, number) < 0 then "-" else if f.space then " " else if f.plus then "+" else ""
               else if !f.hash || number == 0 then "" else if conv == 'o' then "0"
                    else if conv == 'x' then "0x" else "0X")
  {
  }

  // ---- where the two agree ----

  predicate SameSign(conv: char, number: word, f: Flags) {
    if IsSigned(conv) then Operand(conv, number) < 0 || !(f.plus && f.space)
    else conv == 'u' ==> !f.plus && !f.space
  }

  /** The length of what the standard prints without padding. */
  function IsoLength(conv: char, x: int, precision: int, f: Flags): nat {
    |IsoHead(conv, x, f)| + |IsoDigits(conv, x, precision, f)|
  }

  /** The digits agree: no negative precision for 0, and no octal prefix beside zeros of a precision. */
  predicate SameDigits(conv: char, number: word, precision: int, f: Flags) {
    && (number == 0 ==> !(f.precision && precision < 0))
    && (f.hash && conv == 'o' ==>
          if number == 0 then Least(precision, f) != 0 else Least(precision, f) <= |Figures(conv, number)|)
  }

  /** The padding agrees: a negative width, or zeros that a negative precision must not suppress, are not needed. */
  predicate SamePadding(conv: char, number: word, width: int, precision: int, f: Flags) {
    var length := IsoLength(conv, Operand(conv, number), precision, f);
    if width < 0 then -width <= length
    else f.precision && precision < 0 && f.zeropad && !f.left ==> width <= length
  }

  /** The space printed for an unsigned conversion passes for padding. */
  predicate SpaceIsPadding(conv: char, number: word, width: int, precision: int, f: Flags) {
    var digits := IsoDigits(conv, Operand(conv, number), precision, f);
    && conv == 'u' && f.space
    && if digits == "" then width >= 1 || width == -1
       else !f.left && !(f.zeropad && !Given(precision, f)) && width > |digits|
  }

  predicate Agrees(conv: char, number: word, width: int, precision: int, f: Flags) {
    && SameDigits(conv, number, precision, f)
    && if SameSign(conv, number, f) then SamePadding(conv, number, width, precision, f)
       else SpaceIsPadding(conv, number, width, precision, f)
  }

  // ---- layouts ----

  lemma InRepeat(c: char, n: int, x: char)
    ensures x in Repeat(c, n) ==> x == c
    ensures n > 0 ==> c in Repeat(c, n)
  {
    if n > 0 {
      assert Repeat(c, n)[0] == c;
    }
  }

  /** What is in the content is in the text; what is neither there nor padding is not. */
  lemma InLayout(left: bool, zero: bool, width: int, head: string, body: string, x: char)
    ensures x in head || x in body ==> x in Layout(left, zero, width, head, body)
    ensures x != ' ' && (x == '0' ==> left || !zero) && x !in head && x !in body ==>
              x !in Layout(left, zero, width, head, body)
  {
    var pad := width - |head| - |body|;
    InRepeat(' ', pad, x);
    InRepeat('0', pad, x);
  }

  lemma LayoutLength(left: bool, zero: bool, width: int, head: string, body: string)
    ensures |Layout(left, zero, width, head, body)| == Max(width, |head| + |body|)
  {
  }

  /** A zero in front may count as prefix or as digit. */
  lemma ZeroMoves(left: bool, zero: bool, width: int, body: string)
    ensures Layout(left, zero, width, "0", body) == Layout(left, zero, width, "", "0" + body)
  {
    var pad := width - 1 - |body|;
    if left {
      assert "0" + body + Repeat(' ', pad) == "" + ("0" + body) + Repeat(' ', pad);
    } else if zero {
      ZeroCommutes(pad, body);
    } else {
      assert Repeat(' ', pad) + "0" + body == Repeat(' ', pad) + "" + ("0" + body);
    }
  }

  lemma ZeroCommutes(pad: int, body: string)
    ensures "0" + Repeat('0', pad) + body == "" + Repeat('0', pad) + ("0" + body)
  {
    var a, b := "0" + Repeat('0', pad), Repeat('0', pad) + "0";
    assert |a| == |b| && forall i :: 0 <= i < |a| ==> a[i] == b[i];
    assert a == b;
    assert Repeat('0', pad) + ("0" + body) == b + body;
  }

  /** The same content, padded by the code and by the standard. */
  lemma PaddingExact(left: bool, zero: bool, isoZero: bool, width: int, head: string, body: string)
    requires zero ==> isoZero
    requires head == "" || head == " " || head[0] != ' '
    requires isoZero && !zero ==> body != ""
    ensures Layout(left, zero, width, head, body) ==
              Layout(left || width < 0, isoZero, if width < 0 then -width else width, head, body) <==>
              if width < 0 then -width <= |head| + |body|
              else isoZero && !zero && !left ==> width <= |head| + |body|
  {
    var a, w := Layout(left, zero, width, head, body), if width < 0 then -width else width;
    var b := Layout(left || width < 0, isoZero, w, head, body);
    LayoutLength(left, zero, width, head, body);
    LayoutLength(left || width < 0, isoZero, w, head, body);
    if width < 0 && w <= |head| + |body| {
      assert a == head + body;
      assert b == head + body;
    } else if width >= 0 && isoZero && !zero && !left {
      var pad := width - |head| - |body|;
      if pad <= 0 {
        assert a == head + body && b == head + body;
      } else {
        assert a[0] == ' ' && (head == " " ==> a[1] == ' ');
        assert b == head + Repeat('0', pad) + body;
        assert head == "" ==> b[0] == '0';
        assert head == " " ==> b[1] == '0';
        assert head != "" ==> b[0] == head[0];
      }
    }
  }

  /** A space before the digits is the same as one more space of padding only where it ends up among that. */
  lemma SpaceExact(left: bool, zero: bool, isoZero: bool, width: int, body: string)
    requires zero ==> isoZero
    requires if body == "" then !isoZero else body[0] != ' '
    ensures Layout(left, zero, width, " ", body) ==
              Layout(left || width < 0, isoZero, if width < 0 then -width else width, "", body) <==>
              if body == "" then width >= 1 || width == -1 else !left && !isoZero && width > |body|
  {
    var a, w := Layout(left, zero, width, " ", body), if width < 0 then -width else width;
    var b := Layout(left || width < 0, isoZero, w, "", body);
    LayoutLength(left, zero, width, " ", body);
    LayoutLength(left || width < 0, isoZero, w, "", body);
    if body == "" {
      OnlySpaces(a, b);
    } else if width >= 0 && !left {
      var pad := width - |body|;
      if pad > 0 && isoZero {
        assert b == "" + Repeat('0', pad) + body && b[0] == '0';
        assert a[0] == ' ';
      } else if pad > 0 {
        assert a == Repeat(' ', pad - 1) + " " + body;
        assert Repeat(' ', pad - 1) + " " == Repeat(' ', pad);
        assert b == Repeat(' ', pad) + "" + body;
      }
    } else {
      assert a[0] == ' ' && b[0] == body[0];
    }
  }

  lemma OnlySpaces(a: string, b: string)
    requires (forall i :: 0 <= i < |a| ==> a[i] == ' ') && forall i :: 0 <= i < |b| ==> b[i] == ' '
    ensures a == b <==> |a| == |b|
  {
  }

  /** The octal prefix beside zeros of a precision is one zero too many, whatever the padding. */
  lemma OctalDiffers(left: bool, width: int, k: nat, digits: string)
    requires k > 0 && digits != "" && digits[0] != '0'
    ensures Layout(left, false, width, "0", Repeat('0', k) + digits) !=
              Layout(left || width < 0, false, if width < 0 then -width else width, "", Repeat('0', k) + digits)
  {
    var body, w := Repeat('0', k) + digits, if width < 0 then -width else width;
    var a, b := Layout(left, false, width, "0", body), Layout(left || width < 0, false, w, "", body);
    LayoutLength(left, false, width, "0", body);
    LayoutLength(left || width < 0, false, w, "", body);
    if left || width < 0 {
      assert a[k] == body[k - 1] == '0';
      assert b[k] == body[k] == digits[0];
    } else if width > |body| {
      var i := width - |body| - 1;
      assert a[i] == '0' && b[i] == ' ';
    }
  }

  // ---- the digits ----

  lemma {:induction false} FirstDigit(n: nat, digits: string)
    requires |digits| >= 2 && forall i :: 0 < i < |digits| ==> digits[i] != '0'
    requires forall i :: 0 <= i < |digits| ==> digits[i] != ' ' && digits[i] != '+' && digits[i] != '-'
    ensures n == 0 <==> Numeral(n, digits) == ""
    ensures n > 0 ==> Numeral(n, digits)[0] != '0' && Numeral(n, digits)[0] != ' '
    ensures '+' !in Numeral(n, digits) && '-' !in Numeral(n, digits)
    decreases n
  {
    if n > 0 {
      FirstDigit(n / |digits|, digits);
    }
  }

  lemma FirstFigure(conv: char, number: word)
    ensures number == 0 <==> Figures(conv, number) == ""
    ensures number != 0 ==> Figures(conv, number)[0] != '0' && Figures(conv, number)[0] != ' '
    ensures '+' !in Figures(conv, number) && '-' !in Figures(conv, number)
  {
    hide Numeral;
    FirstDigit(Abs(Operand(conv, number)), DigitsFor(conv));
  }

  lemma PrintedIs(conv: char, number: word, width: int, precision: int, f: Flags)
    requires IsNumber(conv)
    ensures Printed(conv, number, width, precision, f) ==
              Layout(f.left, f.zeropad && !f.precision, width, CodeHead(conv, number, f),
                     CodeBody(conv, number, precision, f))
  {
    hide Digits, Repeat, DigitChar;
  }

  /** With the same digits and sign the content is the same, up to the place of an octal zero. */
  lemma SameContent(conv: char, number: word, precision: int, f: Flags)
    requires IsNumber(conv) && SameDigits(conv, number, precision, f)
    ensures var octal, x := f.hash && conv == 'o' && number != 0, Operand(conv, number);
            var body, digits := CodeBody(conv, number, precision, f), IsoDigits(conv, x, precision, f);
            && digits == (if octal then "0" + body else body) && (number != 0 ==> body != "")
            && (digits == "" ==> Given(precision, f)) && (digits != "" ==> digits[0] != ' ')
  {
    hide Numeral;
    CodeBodyIs(conv, number, precision, f);
    FirstFigure(conv, number);
    hide CodeBody;
  }

  lemma NoSignInside(conv: char, number: word, precision: int, f: Flags)
    requires IsNumber(conv)
    ensures var body, digits := CodeBody(conv, number, precision, f),
              IsoDigits(conv, Operand(conv, number), precision, f);
            '+' !in body && '+' !in digits && '-' !in body
  {
    hide Numeral;
    CodeBodyIs(conv, number, precision, f);
    FirstFigure(conv, number);
    hide CodeBody;
    var n := |Figures(conv, number)|;
    InRepeat('0', CodePrecision(precision, f) - n, '+');
    InRepeat('0', CodePrecision(precision, f) - n, '-');
    InRepeat('0', Least(precision, f) - n, '+');
  }

  // ---- the exact condition ----

  lemma SameBoth(conv: char, number: word, width: int, precision: int, f: Flags)
    requires IsNumber(conv) && SameDigits(conv, number, precision, f) && SameSign(conv, number, f)
    ensures Printed(conv, number, width, precision, f) == IsoText(conv, Operand(conv, number), width, precision, f)
            <==> SamePadding(conv, number, width, precision, f)
  {
    hide CodeBody, CodeHead, IsoDigits, IsoHead, Layout, Printed, SameDigits, SameSign, Operand;
    PrintedIs(conv, number, width, precision, f);
    SameContent(conv, number, precision, f);
    SameHead(conv, number, f);
    var zero := f.zeropad && !f.precision;
    if f.hash && conv == 'o' && number != 0 {
      ZeroMoves(f.left, zero, width, CodeBody(conv, number, precision, f));
    }
    var x := Operand(conv, number);
    PaddingExact(f.left, zero, f.zeropad && !Given(precision, f), width, IsoHead(conv, x, f),
        IsoDigits(conv, x, precision, f));
  }

  lemma SameHead(conv: char, number: word, f: Flags)
    requires IsNumber(conv) && SameSign(conv, number, f)
    ensures var head, isoHead := CodeHead(conv, number, f), IsoHead(conv, Operand(conv, number), f);
            && (if f.hash && conv == 'o' && number != 0 then head == "0" && isoHead == "" else head == isoHead)
            && (isoHead == "" || isoHead == " " || isoHead[0] != ' ')
  {
    CodeHeadIs(conv, number, f);
    hide CodeHead;
  }

  lemma OtherSign(conv: char, number: word, width: int, precision: int, f: Flags)
    requires IsNumber(conv) && SameDigits(conv, number, precision, f) && !SameSign(conv, number, f)
    ensures Printed(conv, number, width, precision, f) == IsoText(conv, Operand(conv, number), width, precision, f)
            <==> SpaceIsPadding(conv, number, width, precision, f)
  {
    hide CodeBody, CodeHead, IsoDigits, IsoHead, Layout, Printed, SameDigits, SameSign, Operand;
    PrintedIs(conv, number, width, precision, f);
    SameContent(conv, number, precision, f);
    NoSignInside(conv, number, precision, f);
    OtherHead(conv, number, f);
    var x := Operand(conv, number);
    var body, zero := IsoDigits(conv, x, precision, f), f.zeropad && !f.precision;
    if conv == 'u' && f.space {
      SpaceExact(f.left, zero, f.zeropad && !Given(precision, f), width, body);
    } else {
      InLayout(f.left, zero, width, CodeHead(conv, number, f), body, '+');
      InLayout(f.left || width < 0, f.zeropad && !Given(precision, f), Abs(width), IsoHead(conv, x, f), body, '+');
    }
  }

  lemma OtherHead(conv: char, number: word, f: Flags)
    requires IsNumber(conv) && !SameSign(conv, number, f)
    ensures conv != 'o'
    ensures var head, isoHead := CodeHead(conv, number, f), IsoHead(conv, Operand(conv, number), f);
            if conv == 'u' && f.space then head == " " && isoHead == "" else '+' in head <==> '+' !in isoHead
  {
    CodeHeadIs(conv, number, f);
    hide CodeHead;
  }

  lemma OtherDigits(conv: char, number: word, width: int, precision: int, f: Flags)
    requires IsNumber(conv) && !SameDigits(conv, number, precision, f)
    ensures Printed(conv, number, width, precision, f) != IsoText(conv, Operand(conv, number), width, precision, f)
  {
    hide CodeBody, CodeHead, IsoDigits, IsoHead, Layout, Printed, SameDigits, Operand, Figures;
    PrintedIs(conv, number, width, precision, f);
    WrongDigits(conv, number, precision, f);
    var x := Operand(conv, number);
    if number == 0 {
      NothingPrinted(f.left, width, CodeHead(conv, number, f), f.zeropad && !Given(precision, f), IsoHead(conv, x, f));
    } else {
      OctalDiffers(f.left, width, precision - |Figures(conv, number)|, Figures(conv, number));
    }
  }

  lemma NothingPrinted(left: bool, width: int, head: string, isoZero: bool, isoHead: string)
    requires '0' !in head
    ensures Layout(left, false, width, head, "") != Layout(left || width < 0, isoZero, Abs(width), isoHead, "0")
  {
    assert '0' in "0";
    InLayout(left, false, width, head, "", '0');
    InLayout(left || width < 0, isoZero, Abs(width), isoHead, "0", '0');
  }

  /** Where the digits differ: a 0 that is not printed, or a prefix beside zeros. */
  lemma WrongDigits(conv: char, number: word, precision: int, f: Flags)
    requires IsNumber(conv) && !SameDigits(conv, number, precision, f)
    ensures f.precision
    ensures number == 0 ==>
              && '0' !in CodeHead(conv, number, f) && CodeBody(conv, number, precision, f) == ""
              && IsoDigits(conv, Operand(conv, number), precision, f) == "0"
    ensures number != 0 ==>
              var digits := Figures(conv, number);
              && precision > |digits| && digits != "" && digits[0] != '0'
              && CodeBody(conv, number, precision, f) == Repeat('0', precision - |digits|) + digits
              && IsoDigits(conv, Operand(conv, number), precision, f) == Repeat('0', precision - |digits|) + digits
              && CodeHead(conv, number, f) == "0" && IsoHead(conv, Operand(conv, number), f) == ""
  {
    hide Numeral;
    CodeBodyIs(conv, number, precision, f);
    CodeHeadIs(conv, number, f);
    FirstFigure(conv, number);
    hide CodeBody, CodeHead;
  }

  /** The code prints what the standard says exactly under the condition Agrees. */
  lemma IsoExact(conv: char, number: word, width: int, precision: int, f: Flags)
    requires IsNumber(conv)
    ensures Printed(conv, number, width, precision, f) == IsoText(conv, Operand(conv, number), width, precision, f)
            <==> Agrees(conv, number, width, precision, f)
  {
    if !SameDigits(conv, number, precision, f) {
      OtherDigits(conv, number, width, precision, f);
    } else if SameSign(conv, number, f) {
      SameBoth(conv, number, width, precision, f);
    } else {
      OtherSign(conv, number, width, precision, f);
    }
  }
}
