/** The text that the formatter of kservice.c produces, without any buffer. */
module PrintSpec {
  import opened Words

  datatype Arg = Int(v: int) | Str(s: string) | NullStr

  datatype Flags = Flags(zeropad: bool, sign: bool, plus: bool, space: bool, left: bool, special: bool, large: bool)

  const NO_FLAGS := Flags(false, false, false, false, false, false, false)

  /** n times c; none if n is not positive. */
  function Rep(c: char, n: int): string {
    seq(Max(n, 0), _ => c)
  }

  // --------------------------------------------------------------- one number

  const SMALL := "0123456789abcdef"
  const LARGE := "0123456789ABCDEF"

  function Digit(d: nat, large: bool): char
    requires d < 16
  {
    if large then LARGE[d] else SMALL[d]
  }

  /** The digits of n, most significant first. */
  function Digits(n: nat, radix: nat, large: bool): (s: string)
    requires 2 <= radix <= 16
    ensures |s| > 0
  {
    if n < radix then [Digit(n, large)]
    else Digits(n / radix, radix, large) + [Digit(n % radix, large)]
  }

  /** divide: anything but ten is taken as sixteen. */
  function Radix(base: nat): nat { if base == 10 then 10 else 16 }

  function SignOf(num: int, f: Flags): string {
    if !f.sign then "" else if num < 0 then "-" else if f.plus then "+" else if f.space then " " else ""
  }

  /** What is divided into digits: the magnitude, or the 32-bit pattern. */
  function Magnitude(num: int, f: Flags): nat {
    if f.sign && num < 0 then -num else num % WORD
  }

  /** Blanks, the sign and zeros in front of the digits. */
  function Lead(sign: string, pad: int, f: Flags): string {
    (if f.zeropad || f.left then "" else Rep(' ', pad)) + sign + (if f.zeropad && !f.left then Rep('0', pad) else "")
  }

  /** Zeros up to the precision, the digits, and blanks. */
  function Trail(digits: string, all: int, precision: int, blanks: int): string {
    Rep('0', all - |digits|) + (if precision != 0 then digits else "") + Rep(' ', blanks)
  }

  /** print_number: sign and digits in a field of the given width. A precision of 0
      leaves the digits out, whatever the number. */
  function Number(num: int, base: nat, width: int, precision: int, f: Flags): string {
    var sign := SignOf(num, f);
    var digits := Digits(Magnitude(num, f), Radix(base), f.large);
    var all := Max(|digits|, precision);
    var pad := width - all - |sign|;
    Lead(sign, pad, f) + Trail(digits, all, precision, if f.left then pad else 0)
  }

  // ------------------------------------------------------ what the digits mean

  function DigitValue(c: char): int {
    if '0' <= c <= '9' then c as int - '0' as int
    else if 'a' <= c <= 'f' then c as int - 'a' as int + 10
    else if 'A' <= c <= 'F' then c as int - 'A' as int + 10
    else -1
  }

  function Value(s: string, radix: nat): int {
    if s == "" then 0 else Value(s[..|s| - 1], radix) * radix + DigitValue(s[|s| - 1])
  }

  lemma DigitIs(d: nat, large: bool)
    requires d < 16
    ensures DigitValue(Digit(d, large)) == d
  {
  }

  lemma ValueSnoc(s: string, c: char, radix: nat)
    ensures Value(s + [c], radix) == Value(s, radix) * radix + DigitValue(c)
  {
    assert (s + [c])[..|s|] == s;
  }

  lemma DivMod(n: nat, radix: nat)
    requires radix == 10 || radix == 16
    ensures n / radix * radix + n % radix == n && 0 <= n % radix < 16 && (n >= radix ==> 0 < n / radix < n)
  {
  }

  /** Reading the digits back gives the number; only 0 starts with a zero. */
  lemma {:induction false} DigitsMean(n: nat, radix: nat, large: bool)
    requires radix == 10 || radix == 16
    ensures Value(Digits(n, radix, large), radix) == n
    ensures n > 0 ==> DigitValue(Digits(n, radix, large)[0]) > 0
    decreases n
  {
    DivMod(n, radix);
    DigitIs(n % radix, large);
    if n < radix {
      DigitIs(n, large);
      ValueSnoc("", Digit(n, large), radix);
      assert "" + [Digit(n, large)] == [Digit(n, large)];
    } else {
      DigitsMean(n / radix, radix, large);
      ValueSnoc(Digits(n / radix, radix, large), Digit(n % radix, large), radix);
    }
  }

  /** The characters of the sign and the digits under the C rule: at least
      `precision` digits, and none for a zero under precision 0. */
  function TextWidth(num: int, base: nat, precision: int, f: Flags): nat {
    |SignOf(num, f)| +
    if precision == 0 && Magnitude(num, f) == 0 then 0
    else Max(|Digits(Magnitude(num, f), Radix(base), f.large)|, precision)
  }

  /** print_number keeps to the C rule for the field, the wider of the width asked
      for and the text, exactly when the precision is not 0 or the number is 0 and
      the width leaves nothing to pad. */
  lemma NumberWidth(num: int, base: nat, width: int, precision: int, f: Flags)
    ensures |Number(num, base, width, precision, f)| == Max(width, TextWidth(num, base, precision, f)) <==>
            precision != 0 || (Magnitude(num, f) == 0 && width <= |SignOf(num, f)|)
  {
    var digits := Digits(Magnitude(num, f), Radix(base), f.large);
    assert Magnitude(num, f) == 0 ==> |digits| == 1;
  }

  /** A 5 under precision 0 is printed as no characters at all; a 0 in a field of
      three is printed in two. */
  lemma PrecisionZeroDropsDigits(f: Flags)
    requires !f.sign
    ensures Number(5, 10, 0, 0, f) == "" && TextWidth(5, 10, 0, f) == 1
    ensures |Number(0, 10, 3, 0, f)| == 2 && TextWidth(0, 10, 0, f) == 0
  {
    assert Digits(5, 10, f.large) == [Digit(5, f.large)] && Digits(0, 10, f.large) == [Digit(0, f.large)];
  }

  // ---------------------------------------------------------------- the format

  function Cur(f: string): char { if f == "" then '\0' else f[0] }
  function Next(f: string): string { if f == "" then "" else f[1..] }

  predicate IsDigit(c: char) { '0' <= c <= '9' }

  /** The flags behind a percent sign, and the rest of the format. */
  function ReadFlags(f: string, g: Flags): (r: (Flags, string))
    ensures |r.1| <= |f|
  {
    match Cur(f)
    case '-' => ReadFlags(Next(f), g.(left := true))
    case '+' => ReadFlags(Next(f), g.(plus := true))
    case ' ' => ReadFlags(Next(f), g.(space := true))
    case '#' => ReadFlags(Next(f), g.(special := true))
    case '0' => ReadFlags(Next(f), g.(zeropad := true))
    case _ => (g, f)
  }

  /** skip_atoi. */
  function ReadInt(f: string, i: nat): (r: (nat, string))
    ensures |r.1| <= |f|
    decreases |f|
  {
    if IsDigit(Cur(f)) then ReadInt(Next(f), i * 10 + (f[0] as int - '0' as int)) else (i, f)
  }

  /** The next argument as an integer, and as a string; a missing one is 0. */
  function IntArg(args: seq<Arg>): int {
    if args != [] && args[0].Int? then args[0].v else 0
  }

  function StrArg(args: seq<Arg>): string {
    if args != [] && args[0].Str? then args[0].s else "(NULL)"
  }

  function Rest(args: seq<Arg>): seq<Arg> { if args == [] then [] else args[1..] }

  /** A directive while it is read: the rest of the format, the arguments left. */
  datatype Spec = Spec(rest: string, args: seq<Arg>, flags: Flags, width: int, precision: int, short: bool)

  function ReadWidth(s: Spec): (r: Spec)
    ensures |r.rest| <= |s.rest|
  {
    if IsDigit(Cur(s.rest)) then
      var (n, f) := ReadInt(s.rest, 0);
      s.(width := n, rest := f)
    else if Cur(s.rest) == '*' then
      var w := Signed(IntArg(s.args), WORD);
      s.(width := if w < 0 then -w else w, flags := if w < 0 then s.flags.(left := true) else s.flags,
         rest := Next(s.rest), args := Rest(s.args))
    else s
  }

  function ReadPrecision(s: Spec): (r: Spec)
    ensures |r.rest| <= |s.rest|
  {
    if Cur(s.rest) != '.' then s
    else
      var f := Next(s.rest);
      if IsDigit(Cur(f)) then
        var (n, g) := ReadInt(f, 0);
        s.(precision := n, rest := g)
      else if Cur(f) == '*' then s.(precision := Max(Signed(IntArg(s.args), WORD), 0), rest := Next(f),
          args := Rest(s.args))
      else s.(precision := 0, rest := f)
  }

  function ReadQualifier(s: Spec): (r: Spec)
    ensures |r.rest| <= |s.rest|
  {
    if Cur(s.rest) == 'h' || Cur(s.rest) == 'l' then s.(short := Cur(s.rest) == 'h', rest := Next(s.rest)) else s
  }

  /** Everything between the percent sign and the conversion. */
  function ReadSpec(f: string, args: seq<Arg>): (r: Spec)
    ensures |r.rest| <= |f|
  {
    var (g, rest) := ReadFlags(f, NO_FLAGS);
    ReadQualifier(ReadPrecision(ReadWidth(Spec(rest, args, g, -1, -1, false))))
  }

  function Signed(v: int, bits: nat): int
    requires bits > 0
  {
    var m := v % bits;
    if m < bits / 2 then m else m - bits
  }

  /** The integer argument as print_number receives it. */
  function Narrowed(v: int, short: bool, signed: bool): int {
    if short then (if signed then Signed(v, 0x1_0000) else v % 0x1_0000) else Signed(v, WORD)
  }

  function Padded(s: string, width: int, left: bool): string {
    if left then s + Rep(' ', width - |s|) else Rep(' ', width - |s|) + s
  }

  function Integer(s: Spec, base: nat, f: Flags): string {
    Number(Narrowed(IntArg(s.args), s.short, f.sign), base, s.width, s.precision, f)
  }

  /** The text of one conversion, the arguments it leaves, and whether its
      character was used up. */
  function Convert(s: Spec): (string, seq<Arg>, bool) {
    match Cur(s.rest)
    case 'c' => (Padded([(IntArg(s.args) % 256) as char], s.width, s.flags.left), Rest(s.args), true)
    case 's' =>
      var t := StrArg(s.args);
      (Padded(if 0 < s.precision < |t| then t[..s.precision] else t, s.width, s.flags.left), Rest(s.args), true)
    case 'p' =>
      (Number(Signed(IntArg(s.args), WORD), 16, if s.width == -1 then 8 else s.width, s.precision,
              if s.width == -1 then s.flags.(zeropad := true) else s.flags), Rest(s.args), true)
    case '%' => ("%", s.args, true)
    case 'o' => (Integer(s, 8, s.flags), Rest(s.args), true)
    case 'X' => (Integer(s, 16, s.flags.(large := true)), Rest(s.args), true)
    case 'x' => (Integer(s, 16, s.flags), Rest(s.args), true)
    case 'd' => (Integer(s, 10, s.flags.(sign := true)), Rest(s.args), true)
    case 'i' => (Integer(s, 10, s.flags.(sign := true)), Rest(s.args), true)
    case 'u' => (Integer(s, 10, s.flags), Rest(s.args), true)
    case '\0' => ("%", s.args, false)
    case c => (['%', c], s.args, true)
  }

  /** The whole text. */
  function Format(f: string, args: seq<Arg>): string
    decreases |f|
  {
    if Cur(f) == '\0' then ""
    else if f[0] != '%' then [f[0]] + Format(f[1..], args)
    else
      var s := ReadSpec(f[1..], args);
      var (t, a, used) := Convert(s);
      t + if used then Format(Next(s.rest), a) else ""
  }
}
