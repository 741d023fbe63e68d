/** Integer conversions of `format`: what follows a percent sign (init/src/format.c:118-328). */
module Directives {
  import opened Machine
  import opened Options
  import opened NumberFormat

  datatype Given = Given(left: bool, sign: bool, space: bool, alternative: bool, zero: bool)

  datatype LengthPrefix = LNone | Lh | Lhh | Ll | Lll | Lj | Lz | Lt | LL

  /** What a scan over part of a directive finds: the end of the string, or a value and the rest. */
  datatype Scan<T> = Ended | At(value: T, rest: string)

  /** Stopped: the format string ends within the directive. Outside: no integer conversion, too few arguments, or a
      width or precision that is no int. Printed: the text, the rest of the format string, and the arguments not
      used. */
  datatype Outcome = Stopped | Outside | Printed(text: string, rest: string, args: seq<nat>)

  const NO_FLAGS: Given := Given(false, false, false, false, false)

  function WithFlag(g: Given, c: char): Option<Given> {
    if c == '-' then Some(g.(left := true)) else if c == '+' then Some(g.(sign := true))
    else if c == ' ' then Some(g.(space := true)) else if c == '#' then Some(g.(alternative := true))
    else if c == '0' then Some(g.(zero := true)) else None
  }

  /** A sign overrides a space, left alignment overrides zeros. */
  function Settled(g: Given): Given {
    g.(space := g.space && !g.sign, zero := g.zero && !g.left)
  }

  function FlagsFrom(s: string, g: Given): Scan<Given> {
    if s == "" then Ended
    else if WithFlag(g, s[0]).Some? then FlagsFrom(s[1..], WithFlag(g, s[0]).value)
    else At(Settled(g), s)
  }

  predicate Decimal(c: char) { '0' <= c <= '9' }

  function NumberFrom(s: string, acc: nat): Scan<nat> {
    if s == "" then Ended else if Decimal(s[0]) then NumberFrom(s[1..], acc * 10 + (s[0] - '0') as nat) else At(acc, s)
  }

  /** lbl_length_ext looks at the second letter alone, so `hl` means `ll` and `lh` means `hh`. */
  function LengthExt(length: LengthPrefix, s: string): (LengthPrefix, string) {
    if s == "" then (length, s)
    else
      match s[0]
      case 'h' => (Lhh, s[1..])
      case 'l' => (Lll, s[1..])
      case _ => (length, s)
  }

  function LengthFrom(s: string): (LengthPrefix, string)
    requires s != ""
  {
    match s[0]
    case 'h' => LengthExt(Lh, s[1..])
    case 'l' => LengthExt(Ll, s[1..])
    case 'j' => (Lj, s[1..])
    case 'z' => (Lz, s[1..])
    case 't' => (Lt, s[1..])
    case 'L' => (LL, s[1..])
    case _ => (LNone, s)
  }

  /** 2^bits for the number of bits that a length prefix lets through. */
  function Modulus(length: LengthPrefix): nat {
    match length
    case Lhh => 0x100
    case Lh => 0x1_0000
    case LNone => 0x1_0000_0000
    case LL => 0x1_0000_0000
    case _ => WORD
  }

  /** The cast of the argument to its C type and back to 64 bits. */
  function Fetched(length: LengthPrefix, signed: bool, raw: nat): nat {
    var m, low := Modulus(length), raw % Modulus(length);
    if signed && low >= m / 2 then WORD - m + low else low
  }

  /** A 64-bit word as a signed number. */
  function Signed(word: nat): int {
    if word < WORD / 2 then word else word - WORD
  }

  /** The numbers of an argument type. */
  predicate InType(length: LengthPrefix, signed: bool, x: int) {
    var m := Modulus(length);
    if signed then -(m / 2) <= x < m / 2 else 0 <= x < m
  }

  /** x agrees with an argument in all bits that the prefix lets through. */
  predicate Agrees(length: LengthPrefix, x: int, raw: nat) {
    (x - raw) % Modulus(length) == 0
  }

  /** What an argument means: the one number of its type that agrees with it. */
  function Meant(length: LengthPrefix, signed: bool, raw: nat): int {
    if signed then Signed(Fetched(length, signed, raw)) else Fetched(length, signed, raw)
  }

  /** The length prefix and the signedness decide which bits count and whether they are sign-extended. */
  lemma MeantIsOnly(length: LengthPrefix, signed: bool, raw: nat, x: int)
    ensures InType(length, signed, x) && Agrees(length, x, raw) <==> x == Meant(length, signed, raw)
  {
    hide Agrees;
    MeantAgrees(length, signed, raw);
    var y := Meant(length, signed, raw);
    assert InType(length, signed, y);
    if InType(length, signed, x) && Agrees(length, x, raw) { AgreeingApart(length, x, y, raw); }
  }

  lemma MeantAgrees(length: LengthPrefix, signed: bool, raw: nat)
    ensures Agrees(length, Meant(length, signed, raw), raw)
  {
    var m, low := Modulus(length), raw % Modulus(length);
    ModZero(m, -(raw / m));
    ModZero(m, -1 - raw / m);
    assert m * (-(raw / m)) == low - raw;
    assert m * (-1 - raw / m) == low - m - raw;
  }

  lemma ModZero(m: nat, k: int)
    requires m > 0
    ensures (m * k) % m == 0
  {
    var r, d := (m * k) % m, k - (m * k) / m;
    assert m * d == r by { assert m * k == m * ((m * k) / m) + r; }
    assert d >= 1 ==> m * d >= m;
    assert d <= -1 ==> m * d <= 0 - m;
  }

  /** Different numbers that agree with one argument are a modulus apart. */
  lemma AgreeingApart(length: LengthPrefix, x: int, y: int, raw: nat)
    requires Agrees(length, x, raw) && Agrees(length, y, raw)
    ensures x == y || x - y >= Modulus(length) || y - x >= Modulus(length)
  {
    var m := Modulus(length);
    var a, b := (x - raw) / m, (y - raw) / m;
    assert x - y == m * (a - b);
    assert a - b >= 1 ==> m * (a - b) >= m;
    assert a - b <= -1 ==> m * (a - b) <= -m;
  }

  /** The number a conversion prints; None if the letter is no integer conversion. */
  function NumberOf(g: Given, width: nat, precision: Option<nat>, length: LengthPrefix, c: char,
                    raw: nat): Option<Number> {
    var p := if precision.Some? then precision.value else 1;
    if c == 'd' || c == 'i' then Some(SignedNumber(g, width, p, Fetched(length, true, raw)))
    else if c == 'x' || c == 'X' || c == 'u' || c == 'o' then
      Some(UnsignedNumber(g, width, p, c, Fetched(length, false, raw)))
    else None
  }

  function UnsignedNumber(g: Given, width: nat, precision: nat, c: char, value: nat): Number {
    Number(Flags(g.left, g.zero, c == 'X', c == 'o' && g.alternative, c != 'u'), width, precision,
           if c == 'u' then 10 else if c == 'o' then 8 else 16, false, value,
           if !g.alternative then "" else if c == 'x' then "0x" else if c == 'X' then "0X" else "")
  }

  function SignedNumber(g: Given, width: nat, precision: nat, value: nat): Number {
    var negative := WORD / 2 <= value < WORD;
    Number(Flags(g.left, g.zero, false, false, false), width, precision, 10, negative,
           if negative then WORD - value else value,
           if g.sign then "+" else if g.space then " " else "")
  }

  lemma FetchedIsWord(length: LengthPrefix, signed: bool, raw: nat)
    ensures Fetched(length, signed, raw) < WORD
  {
  }

  lemma NumberPrintable(g: Given, width: nat, precision: Option<nat>, length: LengthPrefix, c: char, raw: nat)
    ensures NumberOf(g, width, precision, length, c, raw).Some? ==>
      Printable(NumberOf(g, width, precision, length, c, raw).value)
  {
    hide Fetched;
    FetchedIsWord(length, true, raw);
    FetchedIsWord(length, false, raw);
  }

  /** Width and precision are ints, and so is the length of what is printed. */
  predicate IntSized(width: nat, precision: Option<nat>) {
    width < INT_LIMIT && (precision.Some? ==> precision.value + 2 < INT_LIMIT)
  }

  /** The end of a directive: length and conversion. */
  function ConvertedFrom(g: Given, width: nat, precision: Option<nat>, s: string, args: seq<nat>): Outcome {
    if s == "" || args == [] || !IntSized(width, precision) then Outside
    else
      var l := LengthFrom(s);
      if l.1 == "" then Outside
      else
        NumberPrintable(g, width, precision, l.0, l.1[0], args[0]);
        match NumberOf(g, width, precision, l.0, l.1[0], args[0])
        case None => Outside
        case Some(n) => Printed(Rendered(n), l.1[1..], args[1..])
  }

  predicate StartsWith(s: string, c: char) { s != "" && s[0] == c }

  /** The precision, and the rest. A negative argument for it counts as 1. */
  function PrecisionFrom(g: Given, width: nat, s: string, args: seq<nat>): Outcome {
    if !StartsWith(s, '.') then ConvertedFrom(g, width, None, s, args)
    else if StartsWith(s[1..], '*') then
      if args == [] then Outside
      else
        var p := Meant(LNone, true, args[0]);
        ConvertedFrom(g.(zero := false), width, Some(if p < 0 then 1 else p), s[2..], args[1..])
    else
      match NumberFrom(s[1..], 0)
      case Ended => Stopped
      case At(precision, s1) => ConvertedFrom(g.(zero := false), width, Some(precision), s1, args)
  }

  /** Everything after the percent sign. A negative argument for the width asks for left alignment. */
  function Converted(s: string, args: seq<nat>): Outcome {
    match FlagsFrom(s, NO_FLAGS)
    case Ended => Stopped
    case At(g, s1) =>
      if StartsWith(s1, '*') then
        if args == [] then Outside
        else
          var w := Meant(LNone, true, args[0]);
          PrecisionFrom(if w < 0 then g.(left := true) else g, if w < 0 then -w else w, s1[1..], args[1..])
      else
        match NumberFrom(s1, 0)
        case Ended => Stopped
        case At(width, s2) => PrecisionFrom(g, width, s2, args)
  }

  /** lbl_width and lbl_precision: a run of decimal digits; None at the end of the string. */
  method ScanNumber(fmt: string, start: nat) returns (n: nat, i: nat)
    requires start <= |fmt|
    ensures start <= i <= |fmt|
    ensures NumberFrom(fmt[start..], 0) == if i == |fmt| then Ended else At(n, fmt[i..])
  {
    n, i := 0, start;
    while i < |fmt| && Decimal(fmt[i])
      invariant start <= i <= |fmt| && NumberFrom(fmt[start..], 0) == NumberFrom(fmt[i..], n)
    {
      assert fmt[i..][1..] == fmt[i + 1..];
      n, i := n * 10 + (fmt[i] - '0') as nat, i + 1;
    }
  }

  /** lbl_flags to the end of lbl_print_number */
  method Directive(fmt: string, start: nat, args: seq<nat>) returns (res: Outcome)
    requires start <= |fmt|
    ensures res == Converted(fmt[start..], args)
  {
    hide Rendered, NumberFrom, NumberOf, Meant;
    var i, g := start, NO_FLAGS;
    while i < |fmt| && WithFlag(g, fmt[i]).Some?
      invariant start <= i <= |fmt| && FlagsFrom(fmt[start..], NO_FLAGS) == FlagsFrom(fmt[i..], g)
    {
      assert fmt[i..][1..] == fmt[i + 1..];
      g, i := WithFlag(g, fmt[i]).value, i + 1;
    }
    if i == |fmt| { return Stopped; }
    if g.sign { g := g.(space := false); }
    if g.left { g := g.(zero := false); }
    var width, rest := 0, args;
    if fmt[i] == '*' {
      if args == [] { return Outside; }
      var w := Meant(LNone, true, args[0]);
      if w < 0 {
        w := -w;
        g := g.(left := true);
      }
      assert fmt[i..][1..] == fmt[i + 1..];
      width, rest, i := w, args[1..], i + 1;
    } else {
      width, i := ScanNumber(fmt, i);
      if i == |fmt| { return Stopped; }
    }
    res := Precision(fmt, i, g, width, rest);
  }

  /** lbl_precision to the end of lbl_print_number */
  method Precision(fmt: string, start: nat, g: Given, width: nat, args: seq<nat>) returns (res: Outcome)
    requires start <= |fmt|
    ensures res == PrecisionFrom(g, width, fmt[start..], args)
  {
    hide NumberFrom, ConvertedFrom, Meant;
    var i := start;
    if i == |fmt| || fmt[i] != '.' {
      res := Convert(fmt, i, g, width, None, args);
      return;
    }
    var flags := g.(zero := false);
    assert fmt[i..][1..] == fmt[i + 1..];
    i := i + 1;
    if i < |fmt| && fmt[i] == '*' {
      if args == [] { return Outside; }
      var p := Meant(LNone, true, args[0]);
      if p < 0 { p := 1; }
      res := Convert(fmt, i + 1, flags, width, Some(p), args[1..]);
    } else {
      var p;
      p, i := ScanNumber(fmt, i);
      if i == |fmt| { return Stopped; }
      res := Convert(fmt, i, flags, width, Some(p), args);
    }
  }

  /** lbl_length and lbl_length_ext */
  method ScanLength(fmt: string, start: nat) returns (length: LengthPrefix, i: nat)
    requires start < |fmt|
    ensures i <= |fmt| && LengthFrom(fmt[start..]) == (length, fmt[i..])
  {
    length, i := LNone, start;
    if fmt[i] == 'h' || fmt[i] == 'l' {
      length, i := if fmt[i] == 'h' then Lh else Ll, i + 1;
      if i < |fmt| && fmt[i] == 'h' { length, i := Lhh, i + 1; }
      else if i < |fmt| && fmt[i] == 'l' { length, i := Lll, i + 1; }
    } else {
      match fmt[i] {
        case 'j' => length, i := Lj, i + 1;
        case 'z' => length, i := Lz, i + 1;
        case 't' => length, i := Lt, i + 1;
        case 'L' => length, i := LL, i + 1;
        case _ =>
      }
    }
  }

  /** lbl_length to the end of lbl_print_number */
  method Convert(fmt: string, start: nat, g: Given, width: nat, precision: Option<nat>, args: seq<nat>)
    returns (res: Outcome)
    requires start <= |fmt|
    ensures res == ConvertedFrom(g, width, precision, fmt[start..], args)
  {
    hide Rendered, Fetched, LengthFrom, NumberOf;
    if start == |fmt| || args == [] || !IntSized(width, precision) { return Outside; }
    var length, i := ScanLength(fmt, start);
    if i == |fmt| { return Outside; }
    NumberPrintable(g, width, precision, length, fmt[i], args[0]);
    var n := NumberOf(g, width, precision, length, fmt[i], args[0]);
    if n.None? { return Outside; }
    var text := Print(n.value);
    assert fmt[i..][1..] == fmt[i + 1..];
    return Printed(text, fmt[i + 1..], args[1..]);
  }
}
