/** The formatter of PrintSpec, writing into a buffer of limited size. */
module PrintBuffer {
  import opened Words
  import opened PrintSpec

  function Pow10(k: nat): nat { if k == 0 then 1 else 10 * Pow10(k - 1) }

  function Reversed(s: string): (r: string)
    ensures |r| == |s|
  {
    if s == "" then "" else [s[|s| - 1]] + Reversed(s[..|s| - 1])
  }

  /** `str` runs over the text; only positions below `size` are written. */
  class Output {
    const buf: array<char>
    const size: nat
    var str: nat
    ghost var text: string
    ghost const orig: seq<char>

    ghost function Cut(): int
      reads this
    {
      Min(str, size)
    }

    /** The buffer holds the text up to `size`, and beyond what it held before. */
    ghost predicate Valid()
      reads this, buf
    {
      && size <= buf.Length == |orig| && str == |text|
      && buf[..Cut()] == text[..Cut()] && buf[Cut()..] == orig[Cut()..]
    }

    constructor (buf: array<char>, size: nat)
      requires size <= buf.Length
      ensures Valid() && text == "" && this.buf == buf && this.size == size && orig == buf[..]
    {
      this.buf, this.size, str, text := buf, size, 0, "";
      orig := buf[..];
    }

    method Put(c: char)
      requires Valid()
      modifies this`str, this`text, buf
      ensures Valid() && text == old(text) + [c]
    {
      if str < size { buf[str] := c; }
      str := str + 1;
      text := text + [c];
      assert buf[..Cut()] == text[..Cut()];
      assert buf[Cut()..] == orig[Cut()..];
    }

    /** The loop that puts c while n-- > 0, and the n it leaves. */
    method PutRep(c: char, n: int) returns (k: int)
      requires Valid()
      modifies this`str, this`text, buf
      ensures Valid() && text == old(text) + Rep(c, n) && k == (if n > 0 then -1 else n - 1)
    {
      k := n;
      while k > 0
        invariant Valid() && text == old(text) + Rep(c, n - k) && (n > 0 ==> k >= 0) && (n <= 0 ==> k == n)
      {
        assert Rep(c, n - k + 1) == Rep(c, n - k) + [c];
        Put(c);
        k := k - 1;
      }
      assert Rep(c, n - k) == Rep(c, n);
      k := k - 1;
    }

    method PutString(s: string)
      requires Valid()
      modifies this`str, this`text, buf
      ensures Valid() && text == old(text) + s
    {
      var i := 0;
      while i < |s|
        invariant 0 <= i <= |s| && Valid() && text == old(text) + s[..i]
      {
        assert s[..i + 1] == s[..i] + [s[i]];
        Put(s[i]);
        i := i + 1;
      }
      assert s[..i] == s;
    }

    /** The terminating zero. */
    method Finish()
      requires Valid()
      modifies buf
      ensures size == 0 ==> buf[..] == orig
      ensures size > 0 ==> var m := Min(str, size - 1);
                           buf[..m] == text[..m] && buf[m] == '\0' && buf[m + 1..] == orig[m + 1..]
    {
      if size > 0 {
        if str < size { buf[str] := '\0'; } else { buf[size - 1] := '\0'; }
      }
    }

    /** Put the digits collected in tmp, last one first. */
    method PutReversed(tmp: array<char>, n: nat)
      requires Valid() && n <= tmp.Length && tmp != buf
      modifies this`str, this`text, buf
      ensures Valid() && text == old(text) + Reversed(tmp[..n])
    {
      var i := n;
      while i > 0
        invariant 0 <= i <= n && Valid() && tmp[..] == old(tmp[..]) &&
                  text + Reversed(tmp[..i]) == old(text) + Reversed(tmp[..n])
      {
        assert tmp[..i][..i - 1] == tmp[..i - 1];
        assert text + Reversed(tmp[..i]) == (text + [tmp[i - 1]]) + Reversed(tmp[..i - 1]);
        i := i - 1;
        Put(tmp[i]);
      }
      assert text + "" == text;
    }

    /** The loop of print_number that divides: at most ten digits go into tmp. */
    method MakeDigits(num: nat, base: nat, large: bool) returns (tmp: array<char>, i: nat)
      requires num < WORD
      ensures fresh(tmp) && i <= 16 == tmp.Length && Reversed(tmp[..i]) == Digits(num, Radix(base), large)
    {
      tmp := new char[16](_ => ' ');
      i := 0;
      if num == 0 {
        tmp[0] := '0';
        assert tmp[..1] == "0";
        return tmp, 1;
      }
      var n: nat := num;
      WordFits(num);
      assert Left(num, base, large) + Reversed(tmp[..0]) == Digits(num, Radix(base), large);
      while n != 0
        invariant Fits(n, i)
        invariant Digits(num, Radix(base), large) == Left(n, base, large) + Reversed(tmp[..i])
      {
        ghost var t := tmp[..i];
        DigitStep(n, base, large, i, t);
        var d := Digit(n % Radix(base), large);
        n := n / Radix(base);
        tmp[i] := d;
        assert tmp[..i + 1] == t + [d];
        i := i + 1;
      }
      assert "" + Reversed(tmp[..i]) == Reversed(tmp[..i]);
    }

    /** The digits still to come. */
    ghost function Left(n: nat, base: nat, large: bool): string {
      if n == 0 then "" else Digits(n, Radix(base), large)
    }

    /** After i digits, what is left has at most 10 - i decimal digits. */
    ghost predicate Fits(n: nat, i: nat) {
      i <= 10 && n < Pow10(10 - i)
    }

    lemma WordFits(n: nat)
      requires n < WORD
      ensures Fits(n, 0)
    {
      assert Pow10(5) == 100000 && Pow10(10) == 10_000_000_000;
    }

    /** One turn of the loop, with the digits t collected so far. */
    lemma DigitStep(n: nat, base: nat, large: bool, i: nat, t: string)
      requires n > 0 && Fits(n, i)
      ensures Fits(n / Radix(base), i + 1) && n % Radix(base) < 16
      ensures var d := Digit(n % Radix(base), large);
              Left(n, base, large) + Reversed(t) == Left(n / Radix(base), base, large) + Reversed(t + [d])
    {
      PowStep(n, base, i);
      LeftStep(n, base, large);
      DigitMoves(Left(n / Radix(base), base, large), Digit(n % Radix(base), large), t);
    }

    lemma PowStep(n: nat, base: nat, i: nat)
      requires n > 0 && Fits(n, i)
      ensures Fits(n / Radix(base), i + 1)
    {
      assert i < 10 ==> Pow10(10 - i) == 10 * Pow10(9 - i);
    }

    /** A digit from the number still to be divided to those collected. */
    lemma DigitMoves(l: string, d: char, t: string)
      ensures (l + [d]) + Reversed(t) == l + Reversed(t + [d])
    {
      assert (t + [d])[..|t|] == t;
      assert (l + [d]) + Reversed(t) == l + ([d] + Reversed(t));
    }

    lemma LeftStep(n: nat, base: nat, large: bool)
      requires n > 0
      ensures n % Radix(base) < 16
      ensures Left(n, base, large) == Left(n / Radix(base), base, large) + [Digit(n % Radix(base), large)]
    {
      DivMod(n, Radix(base));
      if n < Radix(base) { assert n / Radix(base) == 0 && n % Radix(base) == n; }
    }

    /** The part of print_number up to the digits: blanks, sign, zeros. `size` is the
        width less the digits; what is left of it is positive only on the left side. */
    method PrintLead(size0: int, sign: string, f: Flags) returns (size: int)
      requires Valid() && |sign| <= 1
      modifies this`str, this`text, buf
      ensures Valid() && text == old(text) + Lead(sign, size0 - |sign|, f)
      ensures if f.left then size == size0 - |sign| else size < 0
    {
      size := size0;
      var zero := f.zeropad && !f.left;
      ghost var t := text;
      ghost var a := if f.zeropad || f.left then "" else Rep(' ', size0 - |sign|);
      assert t + "" == t;
      if !zero && !f.left {
        if sign != "" && size > 0 { size := size - 1; }
        size := PutRep(' ', size);
      }
      assert text == t + a;
      if sign != "" {
        Put(sign[0]);
        size := size - 1;
      }
      assert text == t + (a + sign);
      if !f.left { size := PutRep(if zero then '0' else ' ', size); }
      LeadJoins(t, a + sign, if f.zeropad && !f.left then Rep('0', size0 - |sign|) else "");
    }

    lemma LeadJoins(t: string, a: string, b: string)
      ensures (t + a) + b == t + (a + b)
    {
    }

    /** The rest: zeros up to the precision, the digits, and blanks on the right. */
    method PrintDigits(tmp: array<char>, i: nat, all: int, precision: int, size: int, ghost digits: string)
      requires Valid() && i <= tmp.Length && tmp != buf && digits == Reversed(tmp[..i])
      modifies this`str, this`text, buf
      ensures Valid() && text == old(text) + Trail(digits, all, precision, size)
    {
      ghost var t := text;
      var _ := PutRep('0', all - i);
      assert text == t + Rep('0', all - i);
      if precision != 0 { PutReversed(tmp, i); }
      assert text == t + (Rep('0', all - i) + if precision != 0 then digits else "");
      var _ := PutRep(' ', size);
    }

    /** print_number. */
    method PrintNumber(num: int, base: nat, width: int, precision: int, f: Flags)
      requires Valid() && -WORD / 2 <= num < WORD / 2
      modifies this`str, this`text, buf
      ensures Valid() && text == old(text) + Number(num, base, width, precision, f)
    {
      var sign := SignOf(num, f);
      var tmp, i := MakeDigits(Magnitude(num, f), base, f.large);
      PrintField(tmp, i, sign, width, precision, f, Digits(Magnitude(num, f), Radix(base), f.large));
    }

    /** The field once the digits are known. */
    method PrintField(tmp: array<char>, i: nat, sign: string, width: int, precision: int, f: Flags,
                      ghost digits: string)
      requires Valid() && i <= tmp.Length && tmp != buf && digits == Reversed(tmp[..i]) && |sign| <= 1
      modifies this`str, this`text, buf
      ensures var all := Max(i, precision); var pad := width - all - |sign|;
              Valid() && text == old(text) + (Lead(sign, pad, f) +
                  Trail(digits, all, precision, if f.left then pad else 0))
    {
      ghost var t := text;
      var all := if i > precision then i else precision;
      var size := PrintLead(width - all, sign, f);
      PrintDigits(tmp, i, all, precision, size, digits);
      ghost var pad := width - all - |sign|;
      FieldJoins(t, Lead(sign, pad, f), digits, all, precision, size, if f.left then pad else 0);
    }

    lemma FieldJoins(t: string, lead: string, digits: string, all: int, precision: int, size: int, blanks: int)
      requires Max(size, 0) == Max(blanks, 0)
      ensures (t + lead) + Trail(digits, all, precision, size) == t + (lead + Trail(digits, all, precision, blanks))
    {
      assert Rep(' ', size) == Rep(' ', blanks);
      LeadJoins(t, lead, Trail(digits, all, precision, size));
    }

    /** The fields of %c and %s: blanks on one side of the text. */
    method PutPadded(s: string, width: int, left: bool)
      requires Valid()
      modifies this`str, this`text, buf
      ensures Valid() && text == old(text) + Padded(s, width, left)
    {
      ghost var t := text;
      var size := width - |s|;
      if !left {
        size := PutRep(' ', size);
        PutString(s);
        LeadJoins(t, Rep(' ', width - |s|), s);
      } else {
        PutString(s);
        LeadJoins(t, s, Rep(' ', size));
      }
      ghost var u := text;
      size := PutRep(' ', size);
      assert !left ==> text == u + "" == u;
    }

    /** The integer conversions. */
    method PutInteger(s: Spec, base: nat, f: Flags)
      requires Valid()
      modifies this`str, this`text, buf
      ensures Valid() && text == old(text) + Integer(s, base, f)
    {
      var num := Narrowed(IntArg(s.args), s.short, f.sign);
      PrintNumber(num, base, s.width, s.precision, f);
    }

    /** One conversion. */
    method PutConversion(s: Spec)
      requires Valid()
      modifies this`str, this`text, buf
      ensures Valid() && text == old(text) + Convert(s).0
    {
      match Cur(s.rest) {
        case 'c' => PutPadded([(IntArg(s.args) % 256) as char], s.width, s.flags.left);
        case 's' =>
          var t := StrArg(s.args);
          PutPadded(if 0 < s.precision < |t| then t[..s.precision] else t, s.width, s.flags.left);
        case 'p' =>
          var unset := s.width == -1;
          PrintNumber(Signed(IntArg(s.args), WORD), 16, if unset then 8 else s.width, s.precision,
                      if unset then s.flags.(zeropad := true) else s.flags);
        case '%' => Put('%');
        case 'o' => PutInteger(s, 8, s.flags);
        case 'X' => PutInteger(s, 16, s.flags.(large := true));
        case 'x' => PutInteger(s, 16, s.flags);
        case 'd' => PutInteger(s, 10, s.flags.(sign := true));
        case 'i' => PutInteger(s, 10, s.flags.(sign := true));
        case 'u' => PutInteger(s, 10, s.flags);
        case '\0' => Put('%');
        case c =>
          Put('%');
          Put(c);
      }
    }
  }

  /** The loop over the flags behind a percent sign. */
  method ScanFlags(fmt: string) returns (g: Flags, f: string)
    ensures (g, f) == ReadFlags(fmt, NO_FLAGS)
  {
    g, f := NO_FLAGS, fmt;
    while true
      invariant ReadFlags(fmt, NO_FLAGS) == ReadFlags(f, g)
      decreases |f|
    {
      match Cur(f) {
        case '-' => g := g.(left := true);
        case '+' => g := g.(plus := true);
        case ' ' => g := g.(space := true);
        case '#' => g := g.(special := true);
        case '0' => g := g.(zeropad := true);
        case _ => break;
      }
      f := Next(f);
    }
  }

  /** skip_atoi. */
  method SkipAtoi(fmt: string) returns (i: nat, f: string)
    ensures (i, f) == ReadInt(fmt, 0)
  {
    i, f := 0, fmt;
    while IsDigit(Cur(f))
      invariant ReadInt(fmt, 0) == ReadInt(f, i)
      decreases |f|
    {
      i, f := i * 10 + (f[0] as int - '0' as int), f[1..];
    }
  }

  /** A directive up to its conversion character. */
  method ScanSpec(fmt: string, args: seq<Arg>) returns (s: Spec)
    ensures s == ReadSpec(fmt, args)
  {
    var g, rest := ScanFlags(fmt);
    s := Spec(rest, args, g, -1, -1, false);
    if IsDigit(Cur(s.rest)) {
      var n, f := SkipAtoi(s.rest);
      s := s.(width := n, rest := f);
    } else {
      s := ReadWidth(s);
    }
    if Cur(s.rest) == '.' && IsDigit(Cur(Next(s.rest))) {
      var n, f := SkipAtoi(Next(s.rest));
      s := s.(precision := n, rest := f);
    } else {
      s := ReadPrecision(s);
    }
    s := ReadQualifier(s);
  }

  /** rt_vsnprintf. For every format, arguments and size it stores the first
      size - 1 characters of the text and a zero, touches nothing else, and
      returns the length of the whole text. */
  method Vsnprintf(buf: array<char>, size: nat, fmt: string, args: seq<Arg>) returns (n: nat)
    requires size <= buf.Length
    modifies buf
    ensures n == |Format(fmt, args)|
    ensures size == 0 ==> buf[..] == old(buf[..])
    ensures size > 0 ==> var m := Min(n, size - 1);
                         buf[..m] == Format(fmt, args)[..m] && buf[m] == '\0' && buf[m + 1..] == old(buf[m + 1..])
  {
    var out := new Output(buf, size);
    Run(out, fmt, args);
    out.Finish();
    n := out.str;
  }

  /** Its loop over the format. */
  method Run(out: Output, fmt: string, args: seq<Arg>)
    requires out.Valid() && out.text == ""
    modifies out`str, out`text, out.buf
    ensures out.Valid() && out.text == Format(fmt, args)
  {
    var f, a := fmt, args;
    assert "" + Format(f, a) == Format(f, a);
    while Cur(f) != '\0'
      invariant out.Valid() && Format(fmt, args) == out.text + Format(f, a)
      decreases |f|
    {
      f, a := PutItem(out, f, a);
    }
    assert out.text + "" == out.text;
  }

  /** One round: a plain character, or a directive. */
  method PutItem(out: Output, f: string, a: seq<Arg>) returns (g: string, b: seq<Arg>)
    requires out.Valid() && Cur(f) != '\0'
    modifies out`str, out`text, out.buf
    ensures out.Valid() && |g| < |f| && old(out.text) + Format(f, a) == out.text + Format(g, b)
  {
    ghost var t := out.text;
    if f[0] != '%' {
      out.Put(f[0]);
      assert t + ([f[0]] + Format(f[1..], a)) == (t + [f[0]]) + Format(f[1..], a);
      return f[1..], a;
    }
    var s := ScanSpec(f[1..], a);
    out.PutConversion(s);
    FormatStep(t, f, a, s);
    return if Convert(s).2 then Next(s.rest) else "", Convert(s).1;
  }

  lemma FormatStep(t: string, f: string, a: seq<Arg>, s: Spec)
    requires f != "" && f[0] == '%' && s == ReadSpec(f[1..], a)
    ensures t + Format(f, a) == (t + Convert(s).0) + Format(if Convert(s).2 then Next(s.rest) else "", Convert(s).1)
  {
    assert Format("", Convert(s).1) == "";
  }
}
