/** Numbers printed by `format` and read back by get_arg_num. */
module PrintParse {
  import opened Machine
  import opened Options
  import opened Arithmetic
  import opened Numerals
  import opened NumberFormat
  import opened Directives
  import opened Console

  // ----- The text of a directive is scanned for what it says

  predicate FlagChars(f: string) {
    forall i :: 0 <= i < |f| ==> f[i] in "-+ #0"
  }

  /** The flags a text of flag characters sets. */
  function Named(f: string): Given {
    Given('-' in f, '+' in f, ' ' in f, '#' in f, '0' in f)
  }

  function Both(g: Given, h: Given): Given {
    Given(g.left || h.left, g.sign || h.sign, g.space || h.space, g.alternative || h.alternative, g.zero || h.zero)
  }

  lemma NamedFront(f: string, g: Given)
    requires f != "" && FlagChars(f)
    ensures WithFlag(g, f[0]).Some? && Both(WithFlag(g, f[0]).value, Named(f[1..])) == Both(g, Named(f))
  {
    assert forall c :: c in f <==> c == f[0] || c in f[1..];
    assert f[0] in "-+ #0";
  }

  lemma NoFlag(g: Given, c: char)
    requires c !in "-+ #0"
    ensures WithFlag(g, c) == None && Both(g, Named("")) == g
  {
  }

  lemma {:induction false} FlagsScanned(f: string, g: Given, s: string)
    requires FlagChars(f) && s != "" && s[0] !in "-+ #0"
    ensures FlagsFrom(f + s, g) == At(Settled(Both(g, Named(f))), s)
  {
    hide WithFlag, Settled, Both, Named;
    NoFlag(g, s[0]);
    if f == "" {
      assert f + s == s;
    } else {
      assert (f + s)[1..] == f[1..] + s;
      NamedFront(f, g);
      FlagsScanned(f[1..], WithFlag(g, f[0]).value, s);
    }
  }

  lemma {:induction false} WidthScanned(w: nat, s: string)
    ensures NumberFrom(Digits(w, 10, false) + s, 0) == NumberFrom(s, w)
    decreases w
  {
    var d := Digits(w, 10, false);
    var last := DigitChar(Mod(w, 10), false);
    DivMod(w, 10);
    if w >= 10 {
      DivLess(w, 10);
      assert d + s == Digits(Div(w, 10), 10, false) + ([last] + s);
      WidthScanned(Div(w, 10), [last] + s);
      assert ([last] + s)[1..] == s;
    } else {
      assert (d + s)[1..] == s;
    }
  }

  lemma {:induction false} FirstDigit(w: nat)
    requires w > 0
    ensures '1' <= Digits(w, 10, false)[0] <= '9'
    decreases w
  {
    if w >= 10 {
      DivLess(w, 10);
      DivSmall(w, 10);
      FirstDigit(Div(w, 10));
    }
  }

  predicate Prefix(p: string) { p in {"", "h", "hh", "l", "ll", "hl", "lh", "j", "z", "t", "L"} }

  function LengthNamed(p: string): LengthPrefix {
    if p == "h" then Lh else if p in {"hh", "lh"} then Lhh else if p == "l" then Ll else if p in {"ll", "hl"} then Lll
    else if p == "j" then Lj else if p == "z" then Lz else if p == "t" then Lt else if p == "L" then LL else LNone
  }

  predicate SignedLetter(c: char) { c in "di" }

  lemma IntegerLetter(c: char)
    requires c in "diuxXo"
    ensures c !in "hljztL" && c !in "-+ #0" && c != '*' && c != '.' && !Decimal(c)
  {
  }

  lemma LengthScanned(p: string, c: char)
    requires Prefix(p) && c in "diuxXo"
    ensures LengthFrom(p + [c]) == (LengthNamed(p), [c])
    ensures var first := (p + [c])[0]; first !in "-+ #0" && first != '*' && first != '.' && !Decimal(first)
  {
    IntegerLetter(c);
    var s := p + [c];
    if p == "" {
      assert s == [c];
      NoLength(s);
    } else if |p| == 2 {
      assert s[0] == p[0] && s[1..] == [p[1], c] && s[1..][1..] == [c];
    } else {
      assert s[0] == p[0] && s[1..] == [c];
      NoExt(if p == "h" then Lh else Ll, [c]);
    }
  }

  lemma NoLength(s: string)
    requires s != "" && s[0] !in "hljztL"
    ensures LengthFrom(s) == (LNone, s)
  {
  }

  lemma NoExt(length: LengthPrefix, s: string)
    requires s != "" && s[0] !in "hl"
    ensures LengthExt(length, s) == (length, s)
  {
  }

  function PrecisionText(precision: Option<nat>): string {
    match precision
    case None => ""
    case Some(k) => "." + Digits(k, 10, false)
  }

  /** Flags, a width (if not 0), a precision (if any), a length prefix and an integer conversion. */
  function DirectiveText(f: string, width: nat, precision: Option<nat>, p: string, c: char): string {
    f + ((if width == 0 then "" else Digits(width, 10, false)) + (PrecisionText(precision) + (p + [c])))
  }

  /** The flags once a precision is known: it overrides zeros. */
  function FlagsGiven(f: string, precision: Option<nat>): Given {
    var g := Settled(Named(f));
    if precision.None? then g else g.(zero := false)
  }

  lemma PrecisionScanned(g: Given, width: nat, precision: Option<nat>, p: string, c: char, args: seq<nat>)
    requires Prefix(p) && c in "diuxXo"
    ensures var s := PrecisionText(precision) + (p + [c]);
      && s[0] !in "-+ #0" && s[0] != '*' && !Decimal(s[0])
      && PrecisionFrom(g, width, s, args)
         == ConvertedFrom(if precision.None? then g else g.(zero := false), width, precision, p + [c], args)
  {
    hide ConvertedFrom, LengthFrom, LengthNamed;
    var tail := p + [c];
    LengthScanned(p, c);
    if precision.Some? {
      var digits := Digits(precision.value, 10, false);
      var s := ("." + digits) + tail;
      assert s[1..] == digits + tail;
      WidthScanned(precision.value, tail);
      DigitIsDecimal(precision.value);
    } else {
      assert "" + tail == tail;
    }
  }

  lemma DigitIsDecimal(w: nat)
    ensures Decimal(Digits(w, 10, false)[0])
  {
    ValueOfDigits(w, 10, false);
    DecimalDigit(Digits(w, 10, false)[0]);
  }

  lemma DirectiveScanned(f: string, width: nat, precision: Option<nat>, p: string, c: char, args: seq<nat>)
    requires FlagChars(f) && Prefix(p) && c in "diuxXo"
    ensures Converted(DirectiveText(f, width, precision, p, c), args)
            == ConvertedFrom(FlagsGiven(f, precision), width, precision, p + [c], args)
  {
    hide ConvertedFrom, Digits, LengthFrom, LengthNamed, PrecisionFrom, PrecisionText, Prefix, NumberFrom, FlagsFrom;
    var tail := PrecisionText(precision) + (p + [c]);
    PrecisionScanned(Settled(Named(f)), width, precision, p, c, args);
    var s := (if width == 0 then "" else Digits(width, 10, false)) + tail;
    WidthTaken(width, tail);
    FlagsScanned(f, NO_FLAGS, s);
  }

  lemma WidthTaken(width: nat, tail: string)
    requires tail != "" && tail[0] !in "-+ #0" && tail[0] != '*' && !Decimal(tail[0])
    ensures var s := (if width == 0 then "" else Digits(width, 10, false)) + tail;
            s[0] !in "-+ #0" && s[0] != '*' && NumberFrom(s, 0) == At(width, tail)
  {
    hide Digits;
    if width == 0 {
      assert "" + tail == tail;
    } else {
      FirstDigit(width);
      WidthScanned(width, tail);
    }
  }

  function RadixOf(c: char): nat {
    if c == 'o' then 8 else if c in "xX" then 16 else 10
  }

  /** What stands in front of a number that is not negative. */
  function PrefixText(g: Given, c: char): string {
    if SignedLetter(c) then (if g.sign then "+" else if g.space then " " else "")
    else if c == 'x' && g.alternative then "0x" else if c == 'X' && g.alternative then "0X" else ""
  }

  /** An integer x, ready to be printed by a directive. */
  function IntegerNumber(f: string, width: nat, precision: Option<nat>, c: char, x: int): Number {
    var g := FlagsGiven(f, precision);
    Number(Flags(g.left, g.zero, c == 'X', c == 'o' && g.alternative, c in "xXo"), width,
           if precision.None? then 1 else precision.value, RadixOf(c), x < 0, if x < 0 then -x else x, PrefixText(g, c))
  }

  /** A directive of any flags, width, precision, length prefix and integer conversion prints the number that its
      argument means, with its sign. */
  lemma IntegerPrinted(f: string, width: nat, precision: Option<nat>, p: string, c: char, raw: nat, more: seq<nat>)
    requires FlagChars(f) && IntSized(width, precision) && Prefix(p) && c in "diuxXo"
    ensures var n := IntegerNumber(f, width, precision, c, Meant(LengthNamed(p), SignedLetter(c), raw));
            && Printable(n)
            && Converted(DirectiveText(f, width, precision, p, c), [raw] + more) == Printed(Rendered(n), "", more)
  {
    hide Rendered, Converted, FlagsGiven, LengthFrom, LengthNamed, Fetched;
    DirectiveScanned(f, width, precision, p, c, [raw] + more);
    LengthScanned(p, c);
    FetchedIsWord(LengthNamed(p), SignedLetter(c), raw);
    assert ([raw] + more)[1..] == more && [c][1..] == "";
  }

  // ----- What the text looks like

  /** The sign, or the prefix of a hexadecimal number. */
  function SignText(f: string, c: char, x: int): string {
    if c in "di" then (if x < 0 then "-" else if '+' in f then "+" else if ' ' in f then " " else "")
    else if c in "xX" && '#' in f && x != 0 then ['0', c] else ""
  }

  /** The digits of the absolute value; with precision 0 they end where only zeros are left. */
  function DigitText(precision: Option<nat>, c: char, x: int): string {
    var v, radix := if x < 0 then -x else x, if c == 'o' then 8 else if c in "xX" then 16 else 10;
    if precision == Some(0) then Trimmed(v, radix, c == 'X') else Digits(v, radix, c == 'X')
  }

  /** How many digits count for the width: all of them, but none of 0 with precision 0. */
  function DigitsCounted(precision: Option<nat>, c: char, x: int): nat {
    if precision == Some(0) && x == 0 then 0 else |DigitText(None, c, x)|
  }

  /** Zeros for a precision of more digits, or the one that `#` asks for in front of an octal number. */
  function LeadingZeroCount(f: string, precision: Option<nat>, c: char, x: int): nat {
    var count := DigitsCounted(precision, c, x);
    if precision.Some? && precision.value > count then precision.value - count
    else if c == 'o' && '#' in f && x != 0 then 1 else 0
  }

  /** The text for x, read off the directive itself: sign or prefix, zeros, digits, and the field filled with spaces in
      front, zeros behind the sign, or spaces behind; if nothing is to be printed, nothing is filled up behind
      either. */
  predicate LooksLike(text: string, f: string, width: nat, precision: Option<nat>, c: char, x: int) {
    var sign, digits, zeros := SignText(f, c, x), DigitText(precision, c, x), LeadingZeroCount(f, precision, c, x);
    var length := |sign| + zeros + DigitsCounted(precision, c, x);
    var fill := if length < width then width - length else 0;
    if length == 0 then text == if '-' in f then "" else Spaces(fill)
    else if '-' in f then text == sign + (Zeros(zeros) + (digits + Spaces(fill)))
    else if '0' in f && precision.None? then text == sign + (Zeros(fill) + (Zeros(zeros) + digits))
    else text == Spaces(fill) + (sign + (Zeros(zeros) + digits))
  }

  lemma NumberParts(f: string, width: nat, precision: Option<nat>, c: char, x: int)
    requires c in "diuxXo" && x < WORD && x + WORD > 0 && (x < 0 ==> SignedLetter(c))
    ensures var n := IntegerNumber(f, width, precision, c, x);
      && Printable(n) && Head(n) == SignText(f, c, x) && PrintedOf(n) == DigitText(precision, c, x)
      && Counted(n) == DigitsCounted(precision, c, x) && Padding(n) == LeadingZeroCount(f, precision, c, x)
      && (DigitsCounted(precision, c, x) == 0 ==> precision.Some?)
      && n.width == width && n.flags.left == ('-' in f) && n.flags.zero == ('-' !in f && '0' in f && precision.None?)
  {
    hide Digits, Trimmed;
  }

  lemma NumberLooks(f: string, width: nat, precision: Option<nat>, c: char, x: int)
    requires c in "diuxXo" && x < WORD && x + WORD > 0 && (x < 0 ==> SignedLetter(c))
    ensures var n := IntegerNumber(f, width, precision, c, x);
      Printable(n) && LooksLike(Rendered(n), f, width, precision, c, x)
  {
    hide Spaces, Zeros, SignText, DigitText, DigitsCounted, LeadingZeroCount, Head, PrintedOf, Counted, Padding;
    NumberParts(f, width, precision, c, x);
    var n := IntegerNumber(f, width, precision, c, x);
    hide IntegerNumber;
    LooseEnds(Head(n), Zeros(Fill(n)), Zeros(Padding(n)), PrintedOf(n), Spaces(Fill(n)));
    NoFill();
  }

  lemma NoFill()
    ensures Spaces(0) == "" && Zeros(0) == ""
  {
  }

  lemma LooseEnds(a: string, b: string, c: string, d: string, e: string)
    ensures "" + a + "" + c + d + e == a + (c + (d + e))
    ensures "" + a + b + c + d + "" == a + (b + (c + d))
    ensures e + a + "" + c + d + "" == e + (a + (c + d))
  {
  }

  /** 2^8, 2^16, 2^32 or 2^64, by the spelling of the prefix. */
  function TypeLimit(p: string): (m: nat)
    ensures m > 0
  {
    if p in {"hh", "lh"} then 0x100 else if p == "h" then 0x1_0000
    else if p in {"", "L"} then 0x1_0000_0000 else 0x1_0000_0000_0000_0000
  }

  /** What a directive prints, with the number of bits its length prefix stands for: the text of the one number of that
      many bits that agrees with the argument. */
  lemma IntegerText(f: string, width: nat, precision: Option<nat>, p: string, c: char, raw: nat, more: seq<nat>,
                    x: int)
    requires FlagChars(f) && IntSized(width, precision) && Prefix(p) && c in "diuxXo"
    requires var m := TypeLimit(p);
      (x - raw) % m == 0 && if c in "di" then 0 <= 2 * x + m && 2 * x < m else 0 <= x < m
    ensures exists text :: Converted(DirectiveText(f, width, precision, p, c), [raw] + more) == Printed(text, "", more)
                           && LooksLike(text, f, width, precision, c, x)
  {
    hide Converted, DirectiveText, Rendered, LooksLike, IntegerNumber, Meant;
    PrefixWidth(p);
    MeantIsOnly(LengthNamed(p), SignedLetter(c), raw, x);
    IntegerPrinted(f, width, precision, p, c, raw, more);
    NumberLooks(f, width, precision, c, x);
  }

  lemma PrefixWidth(p: string)
    requires Prefix(p)
    ensures Modulus(LengthNamed(p)) == TypeLimit(p)
  {
  }

  // ----- Width and precision from arguments

  /** A precision taken from an argument is as one given in digits; a negative one is as 1. */
  lemma StarPrecision(f: string, width: nat, q: nat, p: string, c: char, raw: nat, more: seq<nat>)
    requires FlagChars(f) && Prefix(p) && c in "diuxXo"
    ensures var k := Meant(LNone, true, q);
      Converted(f + ((if width == 0 then "" else Digits(width, 10, false)) + (".*" + (p + [c]))), [q, raw] + more)
        == Converted(DirectiveText(f, width, Some(if k < 0 then 1 else k), p, c), [raw] + more)
  {
    hide ConvertedFrom, Digits, LengthFrom, LengthNamed, Prefix, NumberFrom, FlagsFrom, Meant, Settled, Named, Both;
    var k := Meant(LNone, true, q);
    DirectiveScanned(f, width, Some(if k < 0 then 1 else k), p, c, [raw] + more);
    var tail := ".*" + (p + [c]);
    assert tail[1..] == "*" + (p + [c]) && tail[2..] == p + [c];
    assert ([q, raw] + more)[1..] == [raw] + more;
    WidthTaken(width, tail);
    FlagsScanned(f, NO_FLAGS, (if width == 0 then "" else Digits(width, 10, false)) + tail);
    NothingElse(f);
  }

  lemma NothingElse(f: string)
    ensures Both(NO_FLAGS, Named(f)) == Named(f)
  {
  }

  /** A width taken from an argument is as one given in digits; a negative one asks for left alignment. */
  lemma StarWidth(f: string, w: nat, precision: Option<nat>, p: string, c: char, raw: nat, more: seq<nat>)
    requires FlagChars(f) && Prefix(p) && c in "diuxXo"
    ensures var k := Meant(LNone, true, w);
      Converted(f + ("*" + (PrecisionText(precision) + (p + [c]))), [w, raw] + more)
        == Converted(DirectiveText(if k < 0 then f + "-" else f, if k < 0 then -k else k, precision, p, c),
                     [raw] + more)
  {
    hide ConvertedFrom, Digits, LengthFrom, LengthNamed, Prefix, NumberFrom, FlagsFrom, Meant, Both,
      PrecisionFrom, PrecisionText;
    var k := Meant(LNone, true, w);
    var tail := PrecisionText(precision) + (p + [c]);
    assert ("*" + tail)[1..] == tail && ([w, raw] + more)[1..] == [raw] + more;
    NothingElse(f);
    FlagsScanned(f, NO_FLAGS, "*" + tail);
    var g, width := Settled(Named(f)), if k < 0 then -k else k;
    PrecisionScanned(if k < 0 then g.(left := true) else g, width, precision, p, c, [raw] + more);
    assert Converted(f + ("*" + tail), [w, raw] + more)
           == PrecisionFrom(if k < 0 then g.(left := true) else g, width, tail, [raw] + more);
    DirectiveScanned(if k < 0 then f + "-" else f, width, precision, p, c, [raw] + more);
    if k < 0 {
      LeftFlag(f);
      ZeroIdle(FlagsGiven(f + "-", precision), width, precision, p + [c], [raw] + more, g.zero && precision.None?);
    }
  }

  lemma LeftFlag(f: string)
    ensures Settled(Named(f + "-")) == Settled(Named(f)).(left := true, zero := false)
  {
    assert forall c :: c in f + "-" <==> c in f || c == '-';
  }

  /** Zeros are not filled in if the field is left-aligned. */
  lemma LeftRendered(n: Number, zero: bool)
    requires Printable(n) && n.flags.left
    ensures Rendered(WithZero(n, zero)) == Rendered(n)
  {
    hide Digits, Trimmed, Spaces, Zeros, PrintedOf, Padding, Length, Head, Fill;
    ZeroParts(n, zero);
  }

  lemma ZeroParts(n: Number, zero: bool)
    requires Printable(n)
    ensures var m := WithZero(n, zero);
      && Printable(m) && PrintedOf(m) == PrintedOf(n) && Padding(m) == Padding(n) && Length(m) == Length(n)
      && Head(m) == Head(n) && Fill(m) == Fill(n)
  {
    hide Digits, Trimmed;
  }

  lemma ZeroNumber(g: Given, width: nat, precision: Option<nat>, length: LengthPrefix, c: char, raw: nat, zero: bool)
    ensures var n, m := NumberOf(g, width, precision, length, c, raw),
                        NumberOf(g.(zero := zero), width, precision, length, c, raw);
      if n.None? then m.None? else n.value.flags.left == g.left && m == Some(WithZero(n.value, zero))
  {
    hide Fetched, SignedNumber, UnsignedNumber, WithZero;
    var p := if precision.Some? then precision.value else 1;
    ZeroSigned(g, width, p, Fetched(length, true, raw), zero);
    ZeroUnsigned(g, width, p, c, Fetched(length, false, raw), zero);
  }

  lemma ZeroUnsigned(g: Given, width: nat, precision: nat, c: char, value: nat, zero: bool)
    ensures var n := UnsignedNumber(g, width, precision, c, value);
      && n.flags.left == g.left
      && UnsignedNumber(g.(zero := zero), width, precision, c, value) == WithZero(n, zero)
  {
  }

  function WithZero(n: Number, zero: bool): Number {
    n.(flags := n.flags.(zero := zero))
  }

  lemma ZeroSigned(g: Given, width: nat, precision: nat, value: nat, zero: bool)
    ensures var n := SignedNumber(g, width, precision, value);
      && n.flags.left == g.left
      && SignedNumber(g.(zero := zero), width, precision, value) == WithZero(n, zero)
  {
  }

  lemma ZeroIdle(g: Given, width: nat, precision: Option<nat>, s: string, args: seq<nat>, zero: bool)
    requires g.left
    ensures ConvertedFrom(g.(zero := zero), width, precision, s, args) == ConvertedFrom(g, width, precision, s, args)
  {
    hide Rendered, LengthFrom, NumberOf, Printable;
    if s != "" && args != [] && LengthFrom(s).1 != "" {
      var length, c := LengthFrom(s).0, LengthFrom(s).1[0];
      NumberPrintable(g, width, precision, length, c, args[0]);
      ZeroNumber(g, width, precision, length, c, args[0], zero);
      var n := NumberOf(g, width, precision, length, c, args[0]);
      if n.Some? { LeftRendered(n.value, zero); }
    }
  }

  // ----- Reading back

  lemma DigitsAreNoBlanks(s: string, radix: nat)
    requires AllDigits(s, radix)
    ensures ' ' !in s && 'x' !in s
  {
  }

  /** A prefix, zeros and the digits are read as the number. */
  lemma NumberRead(v: nat, hex: bool, zeros: nat)
    requires v < WORD
    ensures var radix := if hex then 16 else 10;
      var arg := (if hex && v != 0 then "0x" else "") + (Zeros(zeros) + Digits(v, radix, false));
      ' ' !in arg && arg != "" && NumOf(arg) == Some(v)
  {
    hide Digits, Value, DigitValue;
    var radix := if hex then 16 else 10;
    var digits := Zeros(zeros) + Digits(v, radix, false);
    ValueOfDigits(v, radix, false);
    LeadingZeros(zeros, Digits(v, radix, false), radix);
    DigitsAreNoBlanks(digits, radix);
    DivSmall(v, WORD);
    if hex && v != 0 {
      assert ("0x" + digits)[2..] == digits;
    } else {
      assert "" + digits == digits;
      assert !IsHex(digits) by { if |digits| >= 2 { assert digits[1] in digits; } }
      if hex { ZeroInAnyRadix(zeros); }
    }
  }

  lemma ZeroInAnyRadix(zeros: nat)
    ensures Zeros(zeros) + Digits(0, 16, false) == Zeros(zeros) + Digits(0, 10, false)
    ensures AllDigits(Zeros(zeros) + Digits(0, 10, false), 10) && Value(Zeros(zeros) + Digits(0, 10, false), 10) == 0
  {
    ValueOfDigits(0, 10, false);
    LeadingZeros(zeros, Digits(0, 10, false), 10);
  }

  /** What `format` prints for `u` or `#x`, with any length prefix, further flags and any width, get_arg_num reads back
      as the number the argument meant exactly if no spaces were put in front: the field is left-aligned, zero-padded,
      or not wider than the number. */
  lemma PrintThenParse(f: string, width: nat, p: string, c: char, raw: nat)
    requires FlagChars(f) && width < INT_LIMIT && Prefix(p) && (c == 'u' || (c == 'x' && '#' in f))
    ensures var v := Meant(LengthNamed(p), false, raw);
      && v >= 0 && var n := IntegerNumber(f, width, None, c, v);
      && Printable(n) && Converted(DirectiveText(f, width, None, p, c), [raw]) == Printed(Rendered(n), "", [])
      && var arg := ArgOf(Rendered(n), 0);
         ((arg.Some? && NumOf(arg.value) == Some(v)) <==> ('-' in f || '0' in f || width <= Length(n)))
  {
    hide Converted, Rendered, Fetched, LengthNamed, NumOf, ArgOf, Length;
    IntegerPrinted(f, width, None, p, c, raw, []);
    assert [raw] + [] == [raw];
    FetchedIsWord(LengthNamed(p), false, raw);
    UnsignedRead(f, width, c, Meant(LengthNamed(p), false, raw));
  }

  lemma UnsignedRead(f: string, width: nat, c: char, v: nat)
    requires FlagChars(f) && v < WORD && (c == 'u' || (c == 'x' && '#' in f))
    ensures var n := IntegerNumber(f, width, None, c, v);
      && Printable(n)
      && var arg := ArgOf(Rendered(n), 0);
         ((arg.Some? && NumOf(arg.value) == Some(v)) <==> ('-' in f || '0' in f || width <= Length(n)))
  {
    hide Digits, NumOf, Zeros, Spaces;
    var n, hex := IntegerNumber(f, width, None, c, v), c == 'x';
    var zeros := if n.flags.zero then Fill(n) else 0;
    NumberRead(v, hex, zeros);
    var arg := (if hex && v != 0 then "0x" else "") + (Zeros(zeros) + Digits(v, n.radix, false));
    var out := Rendered(n);
    Assembled(n, arg, zeros);
    if !n.flags.left && !n.flags.zero && Fill(n) > 0 {
      assert out[0] == ' ';
    } else {
      WordIs(arg, After(n));
    }
  }

  /** The pieces of a number with precision 1 and no octal prefix, put together. */
  lemma Assembled(n: Number, arg: string, zeros: nat)
    requires Printable(n) && n.precision == 1 && !n.flags.leadingZero && !n.flags.uppercase
    requires zeros == if n.flags.zero then Fill(n) else 0
    requires arg == Head(n) + (Zeros(zeros) + Digits(n.value, n.radix, false)) && !(n.flags.left && n.flags.zero)
    ensures n.flags.left || n.flags.zero || Fill(n) == 0 ==> Rendered(n) == arg + After(n)
    ensures Rendered(n) == Before(n) + (arg + After(n))
    ensures After(n) == "" || After(n)[0] == ' '
    ensures !n.flags.left && !n.flags.zero && Fill(n) > 0 ==> |Rendered(n)| > 0 && Rendered(n)[0] == ' '
  {
    hide Digits;
  }

  // ----- Signed numbers

  function SkipBlanksOf(s: string): string {
    if s != "" && s[0] == ' ' then SkipBlanksOf(s[1..]) else s
  }

  function DigitRun(s: string): (t: string)
    ensures AllDigits(t, 10)
  {
    if s != "" && Decimal(s[0]) then DecimalDigit(s[0]); [s[0]] + DigitRun(s[1..]) else ""
  }

  /** A decimal number as usually read: blanks, a sign, digits up to the first other character. */
  function ReadSigned(s: string): int {
    var t := SkipBlanksOf(s);
    if t != "" && t[0] == '-' then 0 - Value(DigitRun(t[1..]), 10)
    else if t != "" && t[0] == '+' then Value(DigitRun(t[1..]), 10)
    else Value(DigitRun(t), 10)
  }

  lemma {:induction false} BlanksSkipped(n: nat, s: string)
    ensures SkipBlanksOf(Spaces(n) + s) == SkipBlanksOf(s)
  {
    if n == 0 {
      assert Spaces(0) + s == s;
    } else {
      assert (Spaces(n) + s)[1..] == Spaces(n - 1) + s;
      BlanksSkipped(n - 1, s);
    }
  }

  lemma {:induction false} RunOfDigits(digits: string, after: string)
    requires AllDigits(digits, 10) && (after == "" || after[0] == ' ')
    ensures DigitRun(digits + after) == digits
  {
    if digits == "" {
      assert digits + after == after;
    } else {
      assert (digits + after)[1..] == digits[1..] + after;
      DecimalDigit(digits[0]);
      RunOfDigits(digits[1..], after);
    }
  }

  /** Whatever the flags and the width, a signed number is read back as the number that was printed. */
  lemma SignedRoundTrip(f: string, width: nat, p: string, c: char, raw: nat)
    requires FlagChars(f) && width < INT_LIMIT && Prefix(p) && SignedLetter(c)
    ensures var x := Meant(LengthNamed(p), true, raw);
            var n := IntegerNumber(f, width, None, c, x);
            && Printable(n) && Converted(DirectiveText(f, width, None, p, c), [raw]) == Printed(Rendered(n), "", [])
            && ReadSigned(Rendered(n)) == x
  {
    hide Converted, Meant, Rendered, Digits, LengthNamed, ReadSigned;
    IntegerPrinted(f, width, None, p, c, raw, []);
    assert [raw] + [] == [raw];
    SignedTextRead(f, width, c, Meant(LengthNamed(p), true, raw));
  }

  lemma SignedTextRead(f: string, width: nat, c: char, x: int)
    requires SignedLetter(c) && Printable(IntegerNumber(f, width, None, c, x))
    ensures ReadSigned(Rendered(IntegerNumber(f, width, None, c, x))) == x
  {
    hide Digits, Value, DigitRun, Zeros, Spaces, Rendered;
    var n := IntegerNumber(f, width, None, c, x);
    var zeros := if n.flags.zero then Fill(n) else 0;
    var digits := Zeros(zeros) + Digits(n.value, 10, false);
    ValueOfDigits(n.value, 10, false);
    LeadingZeros(zeros, Digits(n.value, 10, false), 10);
    Assembled(n, Head(n) + digits, zeros);
    var rest := (Head(n) + digits) + After(n);
    assert SkipBlanksOf(Rendered(n)) == SkipBlanksOf(rest)
      by { BlanksSkipped(if Before(n) == "" then 0 else Fill(n), rest); }
    RunOfDigits(digits, After(n));
    SignRead(Head(n), digits, After(n));
  }

  /** A sign, digits, and blanks. */
  lemma SignRead(head: string, digits: string, after: string)
    requires head in {"-", "+", " ", ""} && digits != "" && AllDigits(digits, 10)
    requires DigitRun(digits + after) == digits
    ensures var t := SkipBlanksOf((head + digits) + after);
      && t != "" && (if head in {"-", "+"} then t[0] == head[0] && t[1..] == digits + after else t == digits + after)
      && (head !in {"-", "+"} ==> t[0] !in "-+")
  {
    var s := (head + digits) + after;
    DecimalDigit(digits[0]);
    if head == "" {
      assert s == digits + after;
    } else {
      assert s[1..] == digits + after;
    }
  }
}
