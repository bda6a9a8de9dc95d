/**
 kernel/modules/video/kprintf.c: the number and string formatters and the decimal reader. What put_char is
 called with, one call after the other, is the string `out`.
 */
module Kprintf {
  import opened Pmm

  const INT32_MIN := -0x8000_0000
  const INT32_MAX := 0x7FFF_FFFF

  type int32 = x: int | -0x8000_0000 <= x <= 0x7FFF_FFFF

  /** The flag word of a conversion, one field a bit. */
  datatype Flags = Flags(left: bool, plus: bool, space: bool, hash: bool, zeropad: bool,
                         signed: bool, uppercase: bool, precision: bool)

  predicate IsBase(base: nat) {
    base == 8 || base == 10 || base == 16
  }

  function DigitChar(d: nat, uppercase: bool): char
    requires d < 16
  {
    (if uppercase then "0123456789ABCDEF" else "0123456789abcdef")[d]
  }

  /** The numeral of n, without leading zeros; empty for 0. */
  function Digits(n: nat, base: nat, uppercase: bool): string
    requires IsBase(base)
    decreases n
  {
    if n == 0 then "" else Digits(n / base, base, uppercase) + [DigitChar(n % base, uppercase)]
  }

  function DigitValue(c: char): nat {
    if '0' <= c <= '9' then c as nat - '0' as nat
    else if 'a' <= c <= 'f' then c as nat - 'a' as nat + 10
    else if 'A' <= c <= 'F' then c as nat - 'A' as nat + 10
    else 0
  }

  /** What a numeral means. */
  function Value(s: string, base: nat): nat {
    if s == "" then 0 else Value(s[..|s| - 1], base) * base + DigitValue(s[|s| - 1])
  }

  function Repeat(c: char, n: int): string {
    if n <= 0 then "" else seq(n, _ => c)
  }

  function Max(a: int, b: int): int {
    if a > b then a else b
  }

  function Min(a: int, b: int): int {
    if a > b then b else a
  }

  // ---- the text of a number: the code's own layout; IsoNumber says where the standard's is another one ----

  predicate Negative(number: word, base: nat, f: Flags) {
    base == 10 && f.signed && number >= 0x8000_0000
  }

  function Magnitude(number: word, base: nat, f: Flags): nat {
    if Negative(number, base, f) then 0x1_0000_0000 - number else number
  }

  function Sign(number: word, base: nat, f: Flags): (r: string)
    ensures |r| <= 1
  {
    if base != 10 then "" else if Negative(number, base, f) then "-" else if f.space then " "
        else if f.plus then "+" else ""
  }

  function Prefix(number: word, base: nat, f: Flags): (r: string)
    ensures |r| <= 2
  {
    if !f.hash || number == 0 then "" else if base == 8 then "0"
        else if base == 16 then (if f.uppercase then "0X" else "0x") else ""
  }

  /** At least `precision` digits. */
  function Body(number: word, base: nat, precision: int, f: Flags): string
    requires IsBase(base)
  {
    var digits := Digits(Magnitude(number, base, f), base, f.uppercase);
    Repeat('0', precision - |digits|) + digits
  }

  function Content(number: word, base: nat, precision: int, f: Flags): string
    requires IsBase(base)
  {
    Sign(number, base, f) + Prefix(number, base, f) + Body(number, base, precision, f)
  }

  function Number(number: word, base: nat, width: int, precision: int, f: Flags): string
    requires IsBase(base)
  {
    var head, body := Sign(number, base, f) + Prefix(number, base, f), Body(number, base, precision, f);
    var pad := width - |head| - |body|;
    if f.left then head + body + Repeat(' ', pad)
    else if f.zeropad then head + Repeat('0', pad) + body
    else Repeat(' ', pad) + head + body
  }

  // ---- numerals ----

  lemma DigitCharValue(d: nat, uppercase: bool)
    requires d < 16
    ensures DigitValue(DigitChar(d, uppercase)) == d
    ensures d < 10 ==> '0' <= DigitChar(d, uppercase) <= '9'
  {
  }

  /** The digits evaluate to the number they were made from. */
  lemma {:induction false} DigitsValue(n: nat, base: nat, uppercase: bool)
    requires IsBase(base)
    ensures Value(Digits(n, base, uppercase), base) == n
    decreases n
  {
    hide Value, DigitChar, DigitValue;
    EmptyNumeral(base);
    if n > 0 {
      DigitsValue(n / base, base, uppercase);
      DigitCharValue(n % base, uppercase);
      var high, c := Digits(n / base, base, uppercase), DigitChar(n % base, uppercase);
      ValueOfLonger(high, c, base);
      assert n / base * base + n % base == n;
    }
  }

  lemma EmptyNumeral(base: nat)
    ensures Value("", base) == 0
  {
  }

  lemma ValueOfLonger(high: string, c: char, base: nat)
    ensures Value(high + [c], base) == Value(high, base) * base + DigitValue(c)
  {
    var s := high + [c];
    assert s[..|s| - 1] == high;
  }

  /** A 32-bit number has at most 11 digits in base 8, so the 32-character buffer is never overrun. */
  lemma {:induction false} DigitsLength(n: nat, base: nat, uppercase: bool, k: nat)
    requires IsBase(base) && n < Power(8, k)
    ensures |Digits(n, base, uppercase)| <= k
    decreases k
  {
    if n > 0 {
      assert n / base <= n / 8;
      DigitsLength(n / base, base, uppercase, k - 1);
    }
  }

  function Power(b: nat, k: nat): nat {
    if k == 0 then 1 else b * Power(b, k - 1)
  }

  lemma WordDigits(n: nat, base: nat, uppercase: bool)
    requires IsBase(base) && n <= 0xFFFF_FFFF
    ensures |Digits(n, base, uppercase)| <= 11
  {
    assert Power(8, 4) == 4096 && Power(8, 8) == 4096 * 4096 && Power(8, 11) == 0x2_0000_0000;
    DigitsLength(n, base, uppercase, 11);
  }

  /** Leading zeros do not change a numeral's value. */
  lemma {:induction false} ZerosValue(n: int, s: string, base: nat)
    ensures Value(Repeat('0', n) + s, base) == Value(s, base)
    decreases Max(n, 0) + |s|
  {
    if s == "" {
      if n > 0 {
        var z := Repeat('0', n);
        assert z + s == z && z[..n - 1] == Repeat('0', n - 1) + "";
        ZerosValue(n - 1, "", base);
      } else {
        assert Repeat('0', n) + s == "";
      }
    } else {
      var r := Repeat('0', n) + s;
      assert r[..|r| - 1] == Repeat('0', n) + s[..|s| - 1];
      ZerosValue(n, s[..|s| - 1], base);
    }
  }

  /** Whatever the precision, the digits printed evaluate to the magnitude. */
  lemma BodyValue(number: word, base: nat, precision: int, f: Flags)
    requires IsBase(base)
    ensures Value(Body(number, base, precision, f), base) == Magnitude(number, base, f)
  {
    hide Value, Digits, Repeat, Magnitude;
    var digits := Digits(Magnitude(number, base, f), base, f.uppercase);
    ZerosValue(precision - |digits|, digits, base);
    DigitsValue(Magnitude(number, base, f), base, f.uppercase);
  }

  /** The text fills the field, or is as long as its content. */
  lemma NumberLength(number: word, base: nat, width: int, precision: int, f: Flags)
    requires IsBase(base)
    ensures |Number(number, base, width, precision, f)| == Max(width, |Content(number, base, precision, f)|)
  {
  }

  // ---- the code ----

  /** put_char(c) for n > 0 times, counting each in printed. */
  method Pad(out0: string, printed0: int32, c: char, n: int32) returns (out: string, printed: int32)
    requires printed0 + Max(n, 0) <= INT32_MAX
    ensures out == out0 + Repeat(c, n) && printed == printed0 + Max(n, 0)
  {
    out, printed := out0, printed0;
    var left: int32 := n;
    while left > 0
      invariant if n > 0 then 0 <= left <= n else left == n
      invariant out == out0 + Repeat(c, n - left) && printed == printed0 + (n - left)
    {
      out := out + [c];
      printed := printed + 1;
      left := left - 1;
    }
  }

  lemma LastDigit(n: nat, base: nat, uppercase: bool)
    requires IsBase(base)
    ensures n == 0 ==> Digits(n, base, uppercase) == ""
    ensures n > 0 ==> 0 <= n / base < n
    ensures n > 0 ==>
              Digits(n, base, uppercase) == Digits(n / base, base, uppercase) + [DigitChar(n % base, uppercase)]
  {
  }

  /** Fill the buffer with the digits of a number, lowest first. */
  method FillBuffer(buf: array<char>, number: word, base: nat, uppercase: bool) returns (dcount: int)
    requires buf.Length == 32 && IsBase(base)
    modifies buf
    ensures 0 <= dcount <= 11 && dcount == |Digits(number, base, uppercase)|
    ensures forall i :: 0 <= i < dcount ==> buf[dcount - 1 - i] == Digits(number, base, uppercase)[i]
  {
    ghost var all := Digits(number, base, uppercase);
    WordDigits(number, base, uppercase);
    LastDigit(0, base, uppercase);
    hide Digits;
    dcount := 0;
    var ncopy: word := number;
    if ncopy == 0 {
      buf[0] := '0';
    }
    ghost var tail := "";
    while ncopy > 0
      invariant |tail| == dcount && all == Digits(ncopy, base, uppercase) + tail
      invariant forall i :: 0 <= i < dcount ==> buf[dcount - 1 - i] == tail[i]
    {
      LastDigit(ncopy, base, uppercase);
      buf[dcount] := DigitChar(ncopy % base, uppercase);
      tail := [DigitChar(ncopy % base, uppercase)] + tail;
      ncopy := ncopy / base;
      dcount := dcount + 1;
    }
  }

  /** kprintf.c:173-178: the buffer, highest digit first. */
  method PrintDigits(out0: string, printed0: int32, buf: array<char>, dcount0: int, ghost digits: string)
    returns (out: string, printed: int32)
    requires buf.Length == 32 && 0 <= dcount0 <= 11 && dcount0 == |digits| && printed0 + dcount0 <= INT32_MAX
    requires forall i :: 0 <= i < dcount0 ==> buf[dcount0 - 1 - i] == digits[i]
    ensures out == out0 + digits && printed == printed0 + |digits|
  {
    out, printed := out0, printed0;
    var dcount := dcount0;
    while dcount > 0
      invariant 0 <= dcount <= dcount0
      invariant out == out0 + digits[..dcount0 - dcount] && printed == printed0 + (dcount0 - dcount)
    {
      dcount := dcount - 1;
      assert buf[dcount] == buf[dcount0 - 1 - (dcount0 - 1 - dcount)] == digits[dcount0 - 1 - dcount];
      out := out + [buf[dcount]];
      printed := printed + 1;
    }
    assert digits[..dcount0] == digits;
  }

  /** kprintf.c:129-151: sign and prefix. */
  method PrintHead(out0: string, printed0: int32, sign: string, number: word, base: nat, f: Flags)
    returns (out: string, printed: int32)
    requires printed0 + |sign| + |Prefix(number, base, f)| <= INT32_MAX && |sign| <= 1
    ensures out == out0 + (sign + Prefix(number, base, f)) && printed == printed0 + |sign| + |Prefix(number, base, f)|
  {
    out, printed := out0, printed0;
    if sign != "" {
      out := out + sign;
      printed := printed + 1;
    }
    if f.hash && number != 0 {
      if base == 8 {
        out := out + "0";
        printed := printed + 1;
      } else if base == 16 {
        out := out + "0" + (if f.uppercase then "X" else "x");
        printed := printed + 2;
      }
    }
  }

  /** How the parts are laid out in the field; pad is what the content leaves of the width. */
  function Laid(pad: int, head: string, precision: int, digits: string, f: Flags): string {
    (if !f.left && !f.zeropad then Repeat(' ', pad) else "") + head
    + (if f.zeropad && !f.left then Repeat('0', pad) else "") + Repeat('0', precision) + digits
    + (if f.left then Repeat(' ', pad) else "")
  }

  lemma LaidIsNumber(number: word, base: nat, width: int, precision: int, f: Flags)
    requires IsBase(base)
    ensures var head := Sign(number, base, f) + Prefix(number, base, f);
            var digits := Digits(Magnitude(number, base, f), base, f.uppercase);
            Number(number, base, width, precision, f)
            == Laid(width - |head| - Max(precision, |digits|), head, precision - |digits|, digits, f)
  {
    hide Sign, Prefix, Digits, Repeat, Magnitude;
    var head := Sign(number, base, f) + Prefix(number, base, f);
    var digits := Digits(Magnitude(number, base, f), base, f.uppercase);
    RepeatLength('0', precision - |digits|);
    var pad := width - |head| - Max(precision, |digits|);
    if f.left {
      assert head + (Repeat('0', precision - |digits|) + digits) + Repeat(' ', pad)
             == "" + head + "" + Repeat('0', precision - |digits|) + digits + Repeat(' ', pad);
    }
  }

  lemma RepeatLength(c: char, n: int)
    ensures |Repeat(c, n)| == Max(n, 0)
  {
  }

  /** kprintf.c:118-186. */
  method PrintField(width0: int32, sign: string, precision: int32, buf: array<char>, dcount: int, ghost digits: string,
                    number: word, base: nat, f: Flags)
    returns (out: string, printed: int32)
    requires buf.Length == 32 && 0 <= dcount <= 11 && dcount == |digits| && |sign| <= 1
    requires forall i :: 0 <= i < dcount ==> buf[dcount - 1 - i] == digits[i]
    requires Max(width0, 0) + |sign| + |Prefix(number, base, f)| + Max(precision, 0) + dcount <= INT32_MAX
    ensures out == Laid(width0, sign + Prefix(number, base, f), precision, digits, f) && printed == |out|
  {
    hide Prefix;
    out, printed := "", 0;
    var width: int32 := width0;
    if !f.left && !f.zeropad {
      out, printed := Pad(out, printed, ' ', width);
      width := Min(width, 0);
    }
    out, printed := PrintHead(out, printed, sign, number, base, f);
    if f.zeropad && !f.left {
      out, printed := Pad(out, printed, '0', width);
      width := Min(width, 0);
    }
    out, printed := Pad(out, printed, '0', precision);
    out, printed := PrintDigits(out, printed, buf, dcount, digits);
    out, printed := Pad(out, printed, ' ', width);
  }

  method FormatNumber(number: word, base: nat, width0: int32, precision0: int32, f: Flags)
    returns (out: string, printed: int32)
    requires IsBase(base)
    requires width0 - 3 - Max(precision0, 11) >= INT32_MIN && precision0 - 11 >= INT32_MIN
    requires Max(width0, Max(precision0, 11) + 3) <= INT32_MAX
    ensures out == Number(number, base, width0, precision0, f)
    ensures printed == |out| && |out| == Max(width0, |Content(number, base, precision0, f)|)
  {
    hide Digits, DigitChar, Laid, Number;
    var width: int32, precision: int32 := width0, precision0;
    var sign := "";
    var buf := new char[32];
    var ncopy: word := number;
    if base == 10 {
      if f.plus {
        sign := "+";
      }
      if f.space {
        sign := " ";
      }
      if f.signed && number >= 0x8000_0000 {
        sign := "-";
        ncopy := (0xFFFF_FFFF - ncopy + 1) % 0x1_0000_0000;
      }
    }
    var dcount := FillBuffer(buf, ncopy, base, f.uppercase);
    if sign != "" {
      width := width - 1;
    }
    if f.hash && number != 0 {
      if base == 8 {
        width := width - 1;
      } else if base == 16 {
        width := width - 2;
      }
    }
    width := width - Max(precision, dcount);
    precision := precision - dcount;
    LaidIsNumber(number, base, width0, precision0, f);
    NumberLength(number, base, width0, precision0, f);
    ghost var digits := Digits(Magnitude(number, base, f), base, f.uppercase);
    out, printed := PrintField(width, sign, precision, buf, dcount, digits, number, base, f);
  }

  // ---- reading numbers back ----

  predicate IsDigit(c: char) {
    '0' <= c <= '9'
  }

  /** The length of the run of decimal digits at the start of s. */
  function Run(s: string): (n: nat)
    ensures n <= |s| && (forall i :: 0 <= i < n ==> IsDigit(s[i])) && (n < |s| ==> !IsDigit(s[n]))
  {
    if s == "" || !IsDigit(s[0]) then 0 else 1 + Run(s[1..])
  }

  /** A numeral's value does not shrink when digits are added. */
  lemma {:induction false} ValueGrows(s: string, n: nat)
    requires n <= |s|
    ensures Value(s[..n], 10) <= Value(s, 10)
    decreases |s|
  {
    if n < |s| {
      var t := s[..|s| - 1];
      ValueGrows(t, n);
      assert t[..n] == s[..n];
      assert Value(s, 10) == Value(t, 10) * 10 + DigitValue(s[|s| - 1]);
    } else {
      assert s[..n] == s;
    }
  }

  lemma NextDigit(t: string, k: nat, run: nat)
    requires k < run <= |t|
    ensures Value(t[..k + 1], 10) == Value(t[..k], 10) * 10 + DigitValue(t[k])
    ensures Value(t[..k + 1], 10) <= Value(t[..run], 10)
  {
    assert t[..k + 1][..k] == t[..k];
    ValueGrows(t[..run], k + 1);
    assert t[..run][..k + 1] == t[..k + 1];
  }

  lemma EmptyValue(t: string)
    ensures Value(t[..0], 10) == 0
  {
  }

  /** A value as an int32_t keeps it, in two's complement. */
  function Wrap(x: int): int32 {
    (x + 0x8000_0000) % 0x1_0000_0000 - 0x8000_0000
  }

  /** atoi: the position behind the digits at position pos, and their value if an int32_t can hold it. */
  method Atoi(s: string, pos0: nat) returns (num: int32, pos: nat)
    requires pos0 <= |s|
    ensures pos == pos0 + Run(s[pos0..])
    ensures Value(s[pos0..][..Run(s[pos0..])], 10) <= INT32_MAX ==> num == Value(s[pos0..][..Run(s[pos0..])], 10)
  {
    hide Run, Value;
    ghost var t, run := s[pos0..], Run(s[pos0..]);
    EmptyValue(t);
    num, pos := 0, pos0;
    while pos < |s| && IsDigit(s[pos])
      invariant pos0 <= pos <= pos0 + run
      invariant Value(t[..run], 10) <= INT32_MAX ==> num == Value(t[..pos - pos0], 10)
    {
      ghost var k := pos - pos0;
      assert t[k] == s[pos];
      NextDigit(t, k, run);
      num := Wrap(num * 10);
      num := Wrap(num + (s[pos] as int - '0' as int));
      pos := pos + 1;
    }
  }

  /** Reading a printed number: leading spaces, a sign, and a run of digits. */
  function ReadBack(s: string): int {
    if s == "" then 0
    else if s[0] == ' ' then ReadBack(s[1..])
    else if s[0] == '-' then 0 - Value(s[1..][..Run(s[1..])], 10)
    else if s[0] == '+' then Value(s[1..][..Run(s[1..])], 10)
    else Value(s[..Run(s)], 10)
  }

  lemma {:induction false} RunOf(s: string, rest: string)
    requires (forall i :: 0 <= i < |s| ==> IsDigit(s[i])) && (rest == "" || !IsDigit(rest[0]))
    ensures Run(s + rest) == |s| && (s + rest)[..|s|] == s
  {
    if s == "" {
      assert s + rest == rest;
    } else {
      assert (s + rest)[1..] == s[1..] + rest;
      RunOf(s[1..], rest);
    }
  }

  lemma {:induction false} ReadSpaces(n: int, s: string)
    ensures ReadBack(Repeat(' ', n) + s) == ReadBack(s)
    decreases Max(n, 0)
  {
    var t := Repeat(' ', n) + s;
    if n > 0 {
      assert t[1..] == Repeat(' ', n - 1) + s;
      ReadSpaces(n - 1, s);
    } else {
      assert t == s;
    }
  }

  lemma {:induction false} DecimalDigits(n: nat, uppercase: bool)
    ensures forall i :: 0 <= i < |Digits(n, 10, uppercase)| ==> IsDigit(Digits(n, 10, uppercase)[i])
    decreases n
  {
    if n > 0 {
      DecimalDigits(n / 10, uppercase);
      DigitCharValue(n % 10, uppercase);
    }
  }

  /** The signed value that a decimal conversion prints. */
  function Meant(number: word, f: Flags): int {
    if f.signed && number >= 0x8000_0000 then number - 0x1_0000_0000 else number
  }

  /** Sign, zeros, digits and trailing spaces, read back, give the number that was printed. */
  lemma ReadSigned(number: word, precision: int, f: Flags, zeros: int, spaces: int)
    requires precision > 0 || number != 0
    ensures ReadBack(Sign(number, 10, f) + (Repeat('0', zeros) + Body(number, 10, precision, f)) + Repeat(' ', spaces))
            == Meant(number, f)
  {
    hide Body, Value, Run, ReadBack;
    var sign, body := Sign(number, 10, f), Body(number, 10, precision, f);
    var digits, tail := Repeat('0', zeros) + body, Repeat(' ', spaces);
    BodyDigits(number, precision, f);
    BodyValue(number, 10, precision, f);
    ZerosValue(zeros, body, 10);
    forall i | 0 <= i < |digits| ensures IsDigit(digits[i]) {
    }
    RunOf(digits, tail);
    var t := sign + digits + tail;
    SignDecides(t, sign, digits, tail);
  }

  lemma BodyDigits(number: word, precision: int, f: Flags)
    requires precision > 0 || number != 0
    ensures var body := Body(number, 10, precision, f);
            body != "" && forall i :: 0 <= i < |body| ==> IsDigit(body[i])
  {
    var m := Magnitude(number, 10, f);
    DecimalDigits(m, f.uppercase);
    if number != 0 {
      assert m > 0;
    }
  }

  lemma SignDecides(t: string, sign: string, digits: string, tail: string)
    requires t == sign + digits + tail && |sign| <= 1 && digits != "" && IsDigit(digits[0])
    requires Run(digits + tail) == |digits|
    ensures sign == "" || sign == " " || sign == "+" ==> ReadBack(t) == Value(digits, 10)
    ensures sign == "-" ==> ReadBack(t) == 0 - Value(digits, 10)
  {
    assert (digits + tail)[..|digits|] == digits;
    if sign == "" {
      assert t == digits + tail;
    } else {
      assert t[1..] == digits + tail;
    }
  }

  /**
   Whatever the width, precision and flags, a decimal conversion that prints a digit at all reads back as the
   number it was given.
   */
  lemma NumberReadsBack(number: word, width: int, precision: int, f: Flags)
    requires precision > 0 || number != 0
    ensures ReadBack(Number(number, 10, width, precision, f)) == Meant(number, f)
  {
    hide Sign, Body, ReadBack, Repeat;
    var sign, body := Sign(number, 10, f), Body(number, 10, precision, f);
    assert sign + Prefix(number, 10, f) == sign;
    var pad := width - |sign| - |body|;
    RepeatNone('0');
    RepeatNone(' ');
    if f.left {
      ReadSigned(number, precision, f, 0, pad);
      assert sign + ("" + body) + Repeat(' ', pad) == sign + body + Repeat(' ', pad);
    } else if f.zeropad {
      ReadSigned(number, precision, f, pad, 0);
      assert sign + (Repeat('0', pad) + body) + "" == sign + Repeat('0', pad) + body;
    } else {
      ReadSigned(number, precision, f, 0, 0);
      ReadSpaces(pad, sign + ("" + body) + "");
      assert Repeat(' ', pad) + (sign + ("" + body) + "") == Repeat(' ', pad) + sign + body;
    }
  }

  lemma RepeatNone(c: char)
    ensures Repeat(c, 0) == ""
  {
  }

  const PLAIN := Flags(false, false, false, false, false, false, false, false)

  lemma PlainText(number: word)
    ensures Number(number, 10, 0, 1, PLAIN) == Body(number, 10, 1, PLAIN)
    ensures Magnitude(number, 10, PLAIN) == number
  {
    RepeatLength(' ', 0 - |Body(number, 10, 1, PLAIN)|);
    hide Body;
  }

  /** atoi reads a number below 2^31 back from its plain decimal form. */
  method PrintThenAtoi(number: word) returns (num: int32)
    requires number <= INT32_MAX
    ensures num == number
  {
    hide Number, Run, Value, Repeat, Digits;
    var text, printed := FormatNumber(number, 10, 0, 1, PLAIN);
    PlainText(number);
    ghost var body := Body(number, 10, 1, PLAIN);
    assert text == body;
    BodyDigits(number, 1, PLAIN);
    BodyValue(number, 10, 1, PLAIN);
    RunOf(body, "");
    assert body + "" == body && text[0..] == text;
    var pos;
    num, pos := Atoi(text, 0);
  }

  // ---- strings ----

  /** What format_string is to print: at most precision characters of s, padded to the width. */
  function Text(s: string, width: int, precision: int, f: Flags): string {
    Field(Shown(s, precision, f), width - |Shown(s, precision, f)|, f)
  }

  /** format_string's own count of the padding: a negative precision is taken for a length. */
  function TextPad(s: string, width: int, precision: int, f: Flags): int {
    width - if f.precision then Min(precision, |s|) else |s|
  }

  /** The characters format_string shows. */
  function Shown(s: string, precision: int, f: Flags): string {
    if f.precision && 0 <= precision < |s| then s[..precision] else s
  }

  function Field(text: string, pad: int, f: Flags): string {
    if f.left then text + Repeat(' ', pad) else Repeat(' ', pad) + text
  }

  method FormatString(s: string, width0: int32, precision0: int32, f: Flags) returns (out: string, printed: int32)
    requires |s| < INT32_MAX && precision0 - |s| >= INT32_MIN
    requires INT32_MIN <= width0 - |s| && width0 - precision0 <= INT32_MAX - |s| && width0 <= INT32_MAX - |s|
    ensures printed == |out| == Max(TextPad(s, width0, precision0, f), 0) + |Shown(s, precision0, f)|
    ensures out == Field(Shown(s, precision0, f), TextPad(s, width0, precision0, f), f)
    ensures out == Text(s, width0, precision0, f) <==>
              !f.precision || precision0 >= 0 || TextPad(s, width0, precision0, f) <= 0
  {
    out, printed := "", 0;
    var length: int32 := |s|;
    var precision: int32 := if !f.precision then INT32_MAX else precision0;
    var width: int32 := width0 - Min(precision, length);
    ghost var pad := width;
    if !f.left {
      out, printed := Pad(out, printed, ' ', width);
      width := Min(width, 0);
    }
    out, printed := PutText(out, printed, s, precision);
    out, printed := Pad(out, printed, ' ', width);
    TextIs(s, width0, precision0, f, out);
  }

  method PutText(out0: string, printed0: int32, s: string, precision0: int32) returns (out: string, printed: int32)
    requires printed0 + |s| <= INT32_MAX && precision0 - |s| >= INT32_MIN
    ensures var shown := if 0 <= precision0 < |s| then s[..precision0] else s;
            out == out0 + shown && printed == printed0 + |shown|
  {
    out, printed := out0, printed0;
    var precision: int32 := precision0;
    var i := 0;
    while i < |s| && precision != 0
      invariant 0 <= i <= |s| && precision == precision0 - i && (0 <= precision0 ==> i <= precision0)
      invariant out == out0 + s[..i] && printed == printed0 + i
    {
      out := out + [s[i]];
      printed := printed + 1;
      i := i + 1;
      precision := precision - 1;
    }
    assert s[..|s|] == s;
  }

  /** A negative precision makes the padding too long, unless there is none. */
  lemma TextIs(s: string, width: int, precision: int, f: Flags, out: string)
    requires out == Field(Shown(s, precision, f), TextPad(s, width, precision, f), f)
    requires |s| <= INT32_MAX
    ensures out == Text(s, width, precision, f) <==>
              !f.precision || precision >= 0 || TextPad(s, width, precision, f) <= 0
  {
    var shown, pad := Shown(s, precision, f), TextPad(s, width, precision, f);
    var wanted := width - |shown|;
    RepeatLength(' ', pad);
    RepeatLength(' ', wanted);
    if f.precision && precision < 0 && pad > 0 {
      assert |out| > |Text(s, width, precision, f)|;
    } else {
      assert Repeat(' ', pad) == Repeat(' ', wanted);
    }
  }
}
