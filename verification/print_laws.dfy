/** What a format prints: how a directive is read, and the text of each conversion. */
module PrintLaws {
  import opened Words
  import opened PrintSpec

  // -------------------------------------------------------------- one number

  /** t spells v: digits of the radix, in small or in large letters, that read back as
      v, without a zero in front. */
  ghost predicate Spells(t: string, v: nat, radix: nat, large: bool) {
    && t != "" && Value(t, radix) == v && (t[0] == '0' ==> t == "0")
    && forall i :: 0 <= i < |t| ==> IsDigit(t[i]) || (if large then 'A' <= t[i] <= 'F' else 'a' <= t[i] <= 'f')
  }

  lemma {:induction false} DigitsSpell(n: nat, radix: nat, large: bool)
    requires radix == 10 || radix == 16
    ensures Spells(Digits(n, radix, large), n, radix, large)
    decreases n
  {
    DigitsMean(n, radix, large);
    DivMod(n, radix);
    DigitShape(n % radix, large);
    if n < radix {
      DigitShape(n, large);
    } else {
      DigitsSpell(n / radix, radix, large);
      var t := Digits(n / radix, radix, large);
      assert Digits(n, radix, large)[0] == t[0];
      assert DigitValue(t[0]) > 0 && t[0] != '0';
    }
  }

  lemma DigitShape(d: nat, large: bool)
    requires d < 16
    ensures var c := Digit(d, large);
            (IsDigit(c) || (if large then 'A' <= c <= 'F' else 'a' <= c <= 'f')) && (c == '0' <==> d == 0)
  {
  }

  /** The text fills its field: blanks on the left, or on the right, or zeros behind
      the sign. */
  ghost predicate Fills(text: string, sign: string, body: string, width: int, f: Flags) {
    var pad := width - |sign| - |body|;
    text == if f.left then sign + body + Rep(' ', pad)
            else if f.zeropad then sign + Rep('0', pad) + body
            else Rep(' ', pad) + sign + body
  }

  /** The digits t in their field: with zeros up to the precision; under precision 0 they
      are left out, and their place with them. */
  ghost predicate Places(text: string, sign: string, t: string, width: int, precision: int, f: Flags) {
    if precision == 0 then Fills(text, sign, "", width - |t|, f)
    else Fills(text, sign, Rep('0', precision - |t|) + t, width, f)
  }

  /** print_number: the sign, and the digits of the magnitude. */
  lemma NumberSays(num: int, base: nat, width: int, precision: int, f: Flags)
    ensures exists t :: Spells(t, Magnitude(num, f), Radix(base), f.large)
                        && Places(Number(num, base, width, precision, f), SignOf(num, f), t, width, precision, f)
  {
    var t := Digits(Magnitude(num, f), Radix(base), f.large);
    DigitsSpell(Magnitude(num, f), Radix(base), f.large);
    FieldIs(SignOf(num, f), t, width, precision, f);
    assert Number(num, base, width, precision, f) == FieldText(SignOf(num, f), t, width, precision, f);
  }

  function FieldText(sign: string, t: string, width: int, precision: int, f: Flags): string {
    var pad := width - Max(|t|, precision) - |sign|;
    Lead(sign, pad, f) + Trail(t, Max(|t|, precision), precision, if f.left then pad else 0)
  }

  lemma FieldIs(sign: string, t: string, width: int, precision: int, f: Flags)
    ensures Places(FieldText(sign, t, width, precision, f), sign, t, width, precision, f)
  {
    var all := Max(|t|, precision);
    var pad := width - all - |sign|;
    var body := if precision == 0 then "" else Rep('0', precision - |t|) + t;
    if precision == 0 {
      assert Rep('0', all - |t|) == "" && |t| + pad == width - |sign|;
    } else {
      assert Rep('0', all - |t|) == Rep('0', precision - |t|) && |body| == all;
    }
    if f.left {
      assert Lead(sign, pad, f) == sign;
      assert sign + (body + Rep(' ', pad)) == sign + body + Rep(' ', pad);
    } else {
      assert Trail(t, all, precision, 0) == body;
      if f.zeropad { assert Lead(sign, pad, f) == sign + Rep('0', pad); }
        else { assert Lead(sign, pad, f) == Rep(' ', pad) + sign; }
    }
  }

  // ----------------------------------------------------------- the conversions

  /** v is the argument taken as a signed integer of 16 or of 32 bits. */
  predicate AsSigned(v: int, arg: int, short: bool) {
    if short then (v - arg) % 0x1_0000 == 0 && -0x8000 <= v < 0x8000
    else (v - arg) % WORD == 0 && -0x8000_0000 <= v < 0x8000_0000
  }

  lemma SignedIs(arg: int, short: bool)
    ensures AsSigned(Narrowed(arg, short, true), arg, short)
  {
    if short {
      var m := arg % 0x1_0000;
      assert (m - arg) % 0x1_0000 == 0 && (m - 0x1_0000 - arg) % 0x1_0000 == 0;
    } else {
      var m := arg % WORD;
      assert (m - arg) % WORD == 0 && (m - WORD - arg) % WORD == 0;
    }
  }

  /** The argument modulo 16 or 32 bits. */
  function AsUnsigned(arg: int, short: bool): nat { if short then arg % 0x1_0000 else arg % WORD }

  /** The sign shown in front of v. */
  function Shown(v: int, f: Flags): string {
    if v < 0 then "-" else if f.plus then "+" else if f.space then " " else ""
  }

  /** The text is the number of magnitude m behind the sign, in the field of s. */
  ghost predicate Prints(text: string, sign: string, m: nat, radix: nat, large: bool, s: Spec) {
    exists t :: Spells(t, m, radix, large) && Places(text, sign, t, s.width, s.precision, s.flags)
  }

  /** As the directive is read: the sign and the letters come with the conversion. */
  predicate Plain(f: Flags) { !f.sign && !f.large }

  lemma MagnitudeIs(v: int, f: Flags)
    requires f.sign && -0x8000_0000 <= v < 0x8000_0000
    ensures Magnitude(v, f) == if v < 0 then -v else v
  {
  }

  /** %d and %i: a minus or the sign asked for, and the magnitude of the signed argument. */
  lemma SignedSays(s: Spec)
    requires (Cur(s.rest) == 'd' || Cur(s.rest) == 'i') && Plain(s.flags)
    ensures Convert(s).1 == Rest(s.args) && Convert(s).2
    ensures exists v :: AsSigned(v, IntArg(s.args), s.short)
                        && Prints(Convert(s).0, Shown(v, s.flags), Abs(v), 10, false, s)
  {
    ConvertInteger(s);
    SignedPrints(s);
  }

  lemma SignedPrints(s: Spec)
    requires Plain(s.flags)
    ensures exists v :: AsSigned(v, IntArg(s.args), s.short)
                        && Prints(Integer(s, 10, s.flags.(sign := true)), Shown(v, s.flags), Abs(v), 10, false, s)
  {
    var f := s.flags.(sign := true);
    var v := Narrowed(IntArg(s.args), s.short, true);
    SignedIs(IntArg(s.args), s.short);
    NumberPrints(v, 10, s, f);
    MagnitudeIs(v, f);
    assert Prints(Integer(s, 10, f), Shown(v, s.flags), Abs(v), 10, false, s);
  }

  /** The conversions that lead to print_number with an integer argument. */
  lemma ConvertInteger(s: Spec)
    ensures Cur(s.rest) == 'd' || Cur(s.rest) == 'i' ==>
              Convert(s) == (Integer(s, 10, s.flags.(sign := true)), Rest(s.args), true)
    ensures Cur(s.rest) == 'u' ==> Convert(s) == (Integer(s, 10, s.flags), Rest(s.args), true)
    ensures Cur(s.rest) == 'x' ==> Convert(s) == (Integer(s, 16, s.flags), Rest(s.args), true)
    ensures Cur(s.rest) == 'X' ==> Convert(s) == (Integer(s, 16, s.flags.(large := true)), Rest(s.args), true)
  {
  }

  function Abs(v: int): nat { if v < 0 then -v else v }

  /** print_number for the directive, whatever sign and letters it adds to the flags. */
  lemma NumberPrints(num: int, base: nat, s: Spec, f: Flags)
    requires f.left == s.flags.left && f.zeropad == s.flags.zeropad
    ensures Prints(Number(num, base, s.width, s.precision, f), SignOf(num, f), Magnitude(num, f), Radix(base),
              f.large, s)
  {
    NumberSays(num, base, s.width, s.precision, f);
    PrintsFrom(Number(num, base, s.width, s.precision, f), SignOf(num, f), Magnitude(num, f), Radix(base), f.large, s,
        f);
  }

  /** %u, %x and %X: the argument modulo the word, in radix 10 or 16. */
  lemma UnsignedSays(s: Spec)
    requires (Cur(s.rest) == 'u' || Cur(s.rest) == 'x' || Cur(s.rest) == 'X') && Plain(s.flags)
    ensures Convert(s).1 == Rest(s.args) && Convert(s).2
    ensures Prints(Convert(s).0, "", AsUnsigned(IntArg(s.args), s.short),
                   if Cur(s.rest) == 'u' then 10 else 16, Cur(s.rest) == 'X', s)
  {
    ConvertInteger(s);
    if Cur(s.rest) == 'u' { UnsignedPrints(s, 10, s.flags); }
    else if Cur(s.rest) == 'x' { UnsignedPrints(s, 16, s.flags); }
    else { UnsignedPrints(s, 16, s.flags.(large := true)); }
  }

  lemma UnsignedPrints(s: Spec, base: nat, f: Flags)
    requires !f.sign && f.left == s.flags.left && f.zeropad == s.flags.zeropad
    ensures Prints(Integer(s, base, f), "", AsUnsigned(IntArg(s.args), s.short), Radix(base), f.large, s)
  {
    NarrowedModulo(IntArg(s.args), s.short);
    NumberPrints(Narrowed(IntArg(s.args), s.short, false), base, s, f);
  }

  lemma NarrowedModulo(arg: int, short: bool)
    ensures Narrowed(arg, short, false) % WORD == AsUnsigned(arg, short)
  {
    if !short {
      var m := arg % WORD;
      assert (m - WORD) % WORD == m;
    }
  }

  lemma PrintsFrom(text: string, sign: string, m: nat, radix: nat, large: bool, s: Spec, f: Flags)
    requires f.left == s.flags.left && f.zeropad == s.flags.zeropad
    requires exists t :: Spells(t, m, radix, large) && Places(text, sign, t, s.width, s.precision, f)
    ensures Prints(text, sign, m, radix, large, s)
  {
    var t :| Spells(t, m, radix, large) && Places(text, sign, t, s.width, s.precision, f);
    assert Places(text, sign, t, s.width, s.precision, s.flags);
  }

  /** %p: the address in radix 16, with zeros to eight digits unless a width is given. */
  lemma PointerSays(s: Spec)
    requires Cur(s.rest) == 'p' && Plain(s.flags)
    ensures var (text, args, used) := Convert(s);
            && args == Rest(s.args) && used
            && Prints(text, "", IntArg(s.args) % WORD, 16, false,
                      if s.width == -1 then s.(width := 8, flags := s.flags.(zeropad := true)) else s)
  {
    var f := if s.width == -1 then s.flags.(zeropad := true) else s.flags;
    var w := if s.width == -1 then 8 else s.width;
    var num := Signed(IntArg(s.args), WORD);
    NarrowedModulo(IntArg(s.args), false);
    NumberPrints(num, 16, s.(width := w, flags := f), f);
  }

  /** %s: the string, cut at a positive precision; %c: the character; %%: a percent sign. */
  lemma TextSays(s: Spec)
    ensures var (text, args, used) := Convert(s);
            match Cur(s.rest)
            case 's' =>
              var t := StrArg(s.args);
              && args == Rest(s.args) && used
              && InField(text, if s.precision > 0 && |t| > s.precision then t[..s.precision]
                  else t, s.width, s.flags.left)
            case 'c' => args == Rest(s.args) && used &&
              InField(text, [(IntArg(s.args) % 256) as char], s.width, s.flags.left)
            case '%' => args == s.args && used && text == "%"
            case _ => true
  {
  }

  /** t with blanks up to the width, in front of it or behind it. */
  predicate InField(text: string, t: string, width: int, left: bool) {
    && |text| == Max(width, |t|)
    && (if left then text[..|t|] == t else text[|text| - |t|..] == t)
    && forall i :: 0 <= i < |text| && (if left then i >= |t| else i < |text| - |t|) ==> text[i] == ' '
  }

  /** %o prints like %x; an unknown conversion is printed as it stands, and a percent
      sign that ends the format alone. */
  lemma OtherSays(s: Spec)
    requires Plain(s.flags)
    ensures Cur(s.rest) == 'o' ==>
              && Convert(s).1 == Rest(s.args) && Convert(s).2
              && Prints(Convert(s).0, "", AsUnsigned(IntArg(s.args), s.short), 16, false, s)
    ensures Cur(s.rest) == '\0' ==> Convert(s) == ("%", s.args, false)
    ensures Cur(s.rest) !in "csp%oXxdiu\0" ==> Convert(s) == (['%', Cur(s.rest)], s.args, true)
  {
    if Cur(s.rest) == 'o' { UnsignedPrints(s, 8, s.flags); }
    assert "csp%oXxdiu\0" == ['c', 's', 'p', '%', 'o', 'X', 'x', 'd', 'i', 'u', '\0'];
  }

  // -------------------------------------------------- how a directive is read

  /** The flags set by the characters of fs. */
  function FlagSet(fs: string): Flags {
    Flags('0' in fs, false, '+' in fs, ' ' in fs, '-' in fs, '#' in fs, false)
  }

  function Joined(g: Flags, h: Flags): Flags {
    Flags(g.zeropad || h.zeropad, g.sign || h.sign, g.plus || h.plus, g.space || h.space, g.left || h.left,
          g.special || h.special, g.large || h.large)
  }

  predicate FlagChar(c: char) { c == '-' || c == '+' || c == ' ' || c == '#' || c == '0' }

  predicate FlagChars(fs: string) { forall c :: c in fs ==> FlagChar(c) }

  /** Flags may come in any order and number. */
  lemma {:induction false} FlagsRead(fs: string, rest: string, g: Flags)
    requires FlagChars(fs) && !FlagChar(Cur(rest))
    ensures ReadFlags(fs + rest, g) == (Joined(g, FlagSet(fs)), rest)
    decreases |fs|
  {
    if fs == "" {
      assert fs + rest == rest;
    } else {
      var c, ds := fs[0], fs[1..];
      assert c in fs && fs + rest == [c] + (ds + rest);
      FlagRead(c, ds + rest, g);
      FlagsRead(ds, rest, Joined(g, FlagSet([c])));
      assert fs == [c] + ds;
      FlagsJoin(c, ds, g);
    }
  }

  lemma FlagRead(c: char, rest: string, g: Flags)
    requires FlagChar(c)
    ensures ReadFlags([c] + rest, g) == ReadFlags(rest, Joined(g, FlagSet([c])))
  {
    assert ([c] + rest)[1..] == rest;
  }

  lemma FlagsJoin(c: char, ds: string, g: Flags)
    ensures Joined(Joined(g, FlagSet([c])), FlagSet(ds)) == Joined(g, FlagSet([c] + ds))
  {
  }

  predicate Numeral(ds: string) { forall c :: c in ds ==> IsDigit(c) }

  /** A numeral is read as its value. */
  lemma {:induction false} NumeralRead(ds: string, rest: string, i: nat)
    requires Numeral(ds) && !IsDigit(Cur(rest))
    ensures 0 <= Value(ds, 10) && ReadInt(ds + rest, i) == (i * Power(|ds|) + Value(ds, 10), rest)
    decreases |ds|
  {
    if ds == "" {
      assert ds + rest == rest;
    } else {
      var c, es := ds[0], ds[1..];
      assert c in ds && forall x :: x in es ==> x in ds;
      DigitRead(c, es + rest, i);
      assert ds + rest == [c] + (es + rest);
      NumeralRead(es, rest, i * 10 + DigitOf(c));
      ValueFront(ds);
      Expand(i, DigitOf(c), Power(|es|), Value(es, 10));
    }
  }

  function DigitOf(c: char): nat
    requires IsDigit(c)
  {
    c as int - '0' as int
  }

  lemma DigitRead(c: char, rest: string, i: nat)
    requires IsDigit(c)
    ensures ReadInt([c] + rest, i) == ReadInt(rest, i * 10 + DigitOf(c)) && DigitValue(c) == DigitOf(c)
  {
    assert ([c] + rest)[1..] == rest;
  }

  lemma Expand(i: int, d: int, p: nat, v: int)
    ensures (i * 10 + d) * p + v == i * (10 * p) + (d * p + v) && (d >= 0 && v >= 0 ==> d * p + v >= 0)
  {
  }

  function Power(k: nat): nat { if k == 0 then 1 else 10 * Power(k - 1) }

  /** The value from the first digit on. */
  lemma {:induction false} ValueFront(ds: string)
    requires ds != ""
    ensures Value(ds, 10) == DigitValue(ds[0]) * Power(|ds| - 1) + Value(ds[1..], 10)
    decreases |ds|
  {
    var n := |ds| - 1;
    if n == 0 {
      assert ds[..0] == "" && ds[1..] == "";
    } else {
      var b, m := ds[..n], ds[1..n];
      assert b[1..] == m && ds == b + [ds[n]] && ds[1..] == m + [ds[n]];
      ValueFront(b);
      ValueSnoc(b, ds[n], 10);
      ValueSnoc(m, ds[n], 10);
      Shift(DigitValue(ds[0]), Power(n - 1), Value(m, 10), DigitValue(ds[n]));
    }
  }

  lemma Shift(a: int, p: int, m: int, v: int)
    ensures (a * p + m) * 10 + v == a * (10 * p) + (m * 10 + v)
  {
  }

  /** A precision is a point, and a numeral that may be empty. */
  predicate PrecisionText(ps: string) { ps == "" || (ps[0] == '.' && Numeral(ps[1..])) }

  predicate Qualifier(q: string) { q == "" || q == "h" || q == "l" }

  predicate Conversion(c: char) {
    c == 'c' || c == 's' || c == 'p' || c == '%' || c == 'o' || c == 'X' || c == 'x' || c == 'd' || c == 'i' || c == 'u'
  }

  /** Flags, a width, a precision, h or l, and the conversion: the directive they spell. */
  function Directive(fs: string, ws: string, ps: string, q: string, rest: string, args: seq<Arg>): Spec
    requires PrecisionText(ps)
  {
    Spec(rest, args, FlagSet(fs), if ws == "" then -1 else Value(ws, 10), if ps == "" then -1
        else Value(ps[1..], 10), q == "h")
  }

  lemma DirectiveRead(fs: string, ws: string, ps: string, q: string, c: char, rest: string, args: seq<Arg>)
    requires FlagChars(fs) && Numeral(ws) && (ws == "" || ws[0] != '0') && PrecisionText(ps) && Qualifier(q) &&
             Conversion(c)
    ensures ReadSpec(fs + (ws + (ps + (q + ([c] + rest)))), args) == Directive(fs, ws, ps, q, [c] + rest, args)
  {
    var t3 := q + ([c] + rest);
    var t2 := ps + t3;
    var t1 := ws + t2;
    assert Cur([c] + rest) == c && t3 != "";
    assert Cur(t3) == (if q == "" then c else q[0]);
    assert t2 != "" && Cur(t2) == (if ps == "" then Cur(t3) else '.');
    if ws != "" { assert ws[0] in ws; }
    assert t1 != "" && Cur(t1) == (if ws == "" then Cur(t2) else ws[0]);
    FlagsRead(fs, t1, NO_FLAGS);
    WidthRead(Spec(t1, args, FlagSet(fs), -1, -1, false), ws, t2);
    var s := Spec(t2, args, FlagSet(fs), if ws == "" then -1 else Value(ws, 10), -1, false);
    PrecisionRead(s, ps, t3);
    QualifierRead(s.(precision := if ps == "" then -1 else Value(ps[1..], 10), rest := t3), q, c, rest);
  }

  lemma WidthRead(s: Spec, ws: string, rest: string)
    requires s.rest == ws + rest && Numeral(ws) && !IsDigit(Cur(rest)) && Cur(rest) != '*'
    ensures ReadWidth(s) == s.(rest := rest, width := if ws == "" then s.width else Value(ws, 10))
  {
    if ws == "" {
      assert ws + rest == rest;
    } else {
      assert ws[0] in ws && Cur(s.rest) == ws[0];
      NumeralRead(ws, rest, 0);
    }
  }

  lemma PrecisionRead(s: Spec, ps: string, rest: string)
    requires s.rest == ps + rest && PrecisionText(ps) && !IsDigit(Cur(rest)) && Cur(rest) != '*' && Cur(rest) != '.'
    ensures ReadPrecision(s) == s.(rest := rest, precision := if ps == "" then s.precision else Value(ps[1..], 10))
  {
    if ps == "" {
      assert ps + rest == rest;
    } else {
      var ds := ps[1..];
      assert (ps + rest)[1..] == ds + rest && Cur(ps + rest) == '.';
      if ds == "" {
        assert ds + rest == rest;
      } else {
        assert ds[0] in ds && Cur(ds + rest) == ds[0];
        NumeralRead(ds, rest, 0);
      }
    }
  }

  lemma QualifierRead(s: Spec, q: string, c: char, rest: string)
    requires s.rest == q + ([c] + rest) && Qualifier(q) && Conversion(c) && !s.short
    ensures ReadQualifier(s) == s.(rest := [c] + rest, short := q == "h")
  {
    if q == "" { assert q + ([c] + rest) == [c] + rest; } else { assert (q + ([c] + rest))[1..] == [c] + rest; }
  }

  /** A star takes the width from the arguments, a negative one as a flag and its
      magnitude; a star behind the point takes the precision, a negative one as 0. */
  lemma StarRead(s: Spec)
    ensures Cur(s.rest) == '*' ==>
              exists w :: AsSigned(w, IntArg(s.args), false)
                          && ReadWidth(s) == s.(width := Abs(w), flags := s.flags.(left := s.flags.left || w < 0),
                                                rest := s.rest[1..], args := Rest(s.args))
    ensures |s.rest| >= 2 && s.rest[0] == '.' && s.rest[1] == '*' ==>
              exists w :: AsSigned(w, IntArg(s.args), false)
                          && ReadPrecision(s) == s.(precision := if w < 0 then 0
                              else w, rest := s.rest[2..], args := Rest(s.args))
  {
    var w := Narrowed(IntArg(s.args), false, true);
    SignedIs(IntArg(s.args), false);
    assert w == Signed(IntArg(s.args), WORD) && AsSigned(w, IntArg(s.args), false);
    if |s.rest| >= 2 { assert s.rest[1..][1..] == s.rest[2..]; }
  }

  // --------------------------------------------------------------- the whole text

  /** Ordinary characters are copied. */
  lemma {:induction false} FormatText(lit: string, rest: string, args: seq<Arg>)
    requires forall c :: c in lit ==> c != '%' && c != '\0'
    ensures Format(lit + rest, args) == lit + Format(rest, args)
    decreases |lit|
  {
    if lit == "" {
      Glue(lit, rest);
      Glue(lit, Format(rest, args));
    } else {
      Glue(lit, rest);
      Glue(lit, Format(rest, args));
      assert lit[0] in lit && forall c :: c in lit[1..] ==> c in lit;
      FormatText(lit[1..], rest, args);
      FormatChar(lit[0], lit[1..] + rest, args);
    }
  }

  lemma Glue(a: string, b: string)
    ensures a == "" ==> a + b == b
    ensures a != "" ==> a + b == [a[0]] + (a[1..] + b)
  {
  }

  lemma FormatChar(c: char, rest: string, args: seq<Arg>)
    requires c != '%' && c != '\0'
    ensures Format([c] + rest, args) == [c] + Format(rest, args)
  {
    assert ([c] + rest)[1..] == rest;
  }

  /** A directive is replaced by the text of its conversion, and the format goes on. */
  lemma FormatDirective(fs: string, ws: string, ps: string, q: string, c: char, rest: string, args: seq<Arg>)
    requires FlagChars(fs) && Numeral(ws) && (ws == "" || ws[0] != '0') && PrecisionText(ps) && Qualifier(q) &&
             Conversion(c)
    ensures var (text, left, used) := Convert(Directive(fs, ws, ps, q, [c] + rest, args));
            Format("%" + (fs + (ws + (ps + (q + ([c] + rest))))), args) == text + Format(rest, left)
  {
    var f := fs + (ws + (ps + (q + ([c] + rest))));
    DirectiveRead(fs, ws, ps, q, c, rest, args);
    assert ("%" + f)[1..] == f;
    var s := Directive(fs, ws, ps, q, [c] + rest, args);
    assert Next(s.rest) == rest;
    ConversionUsed(s);
  }

  lemma ConversionUsed(s: Spec)
    requires Conversion(Cur(s.rest))
    ensures Convert(s).2
  {
  }

  /** A plain %d: the minus of a negative number, and its digits. */
  lemma PlainDecimal(v: int)
    requires -0x8000_0000 <= v < 0x8000_0000
    ensures exists t :: Spells(t, Abs(v), 10, false) && Format("%d", [Int(v)]) == (if v < 0 then "-" else "") + t
  {
    var s := Directive("", "", "", "", "d", [Int(v)]);
    PlainFormat([Int(v)]);
    SignedSays(s);
    var u :| AsSigned(u, v, false) && Prints(Convert(s).0, Shown(u, s.flags), Abs(u), 10, false, s);
    SameSigned(u, v);
    var t :| Spells(t, Abs(u), 10, false) && Places(Convert(s).0, Shown(u, s.flags), t, -1, -1, s.flags);
    PlainField(Convert(s).0, Shown(u, s.flags), t, s.flags);
  }

  lemma PlainFormat(args: seq<Arg>)
    ensures Format("%d", args) == Convert(Directive("", "", "", "", "d", args)).0
  {
    FormatDirective("", "", "", "", 'd', "", args);
    assert "%" + ("" + ("" + ("" + ("" + (['d'] + ""))))) == "%d" && ['d'] + "" == "d";
    var text := Convert(Directive("", "", "", "", "d", args)).0;
    assert text + "" == text;
  }

  lemma SameSigned(u: int, v: int)
    requires AsSigned(u, v, false) && -0x8000_0000 <= v < 0x8000_0000
    ensures u == v
  {
  }

  lemma PlainField(text: string, sign: string, t: string, f: Flags)
    requires Places(text, sign, t, -1, -1, f)
    ensures text == sign + t
  {
    assert Rep('0', -1 - |t|) == "" && "" + t == t;
  }
}
