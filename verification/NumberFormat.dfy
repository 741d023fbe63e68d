/** How `format` prints an integer (init/src/format.c:292-328, and the same code in kernel/src/lib/format.c). */
module NumberFormat {
  import opened Machine
  import opened Arithmetic
  import opened Numerals

  /** The flags that matter once a conversion is known. */
  datatype Flags = Flags(left: bool, zero: bool, uppercase: bool, leadingZero: bool, noPrefixOnZero: bool)

  /** A conversion ready to be printed; a precision is at least 1 unless it was given as 0. */
  datatype Number = Number(
    flags: Flags, width: nat, precision: nat, radix: nat, negative: bool, value: nat, prefix: string)

  predicate Printable(n: Number) {
    2 <= n.radix <= 16 && n.value < WORD
  }

  // ----- What is to be printed

  function AllOf(n: Number): string
    requires Printable(n)
  {
    Digits(n.value, n.radix, n.flags.uppercase)
  }

  /** The digits that are printed: with precision 0 the loop ends once only zeros are left. */
  function PrintedOf(n: Number): string
    requires Printable(n)
  {
    if n.precision > 0 then AllOf(n) else Trimmed(n.value, n.radix, n.flags.uppercase)
  }

  /** The sign or the prefix. */
  function Head(n: Number): string {
    if n.negative then "-" else if !n.flags.noPrefixOnZero || n.value != 0 then n.prefix else ""
  }

  /** The number of digits that is counted. */
  function Counted(n: Number): nat
    requires Printable(n)
  {
    if n.precision == 0 && n.value == 0 then 0 else |AllOf(n)|
  }

  /** Zeros in front of the digits, for the precision or for the octal prefix. */
  function Padding(n: Number): nat
    requires Printable(n)
  {
    if n.precision > Counted(n) then n.precision - Counted(n)
    else if n.flags.leadingZero && (n.value != 0 || !n.flags.noPrefixOnZero) then 1 else 0
  }

  function Length(n: Number): nat
    requires Printable(n)
  {
    Counted(n) + Padding(n) + |Head(n)|
  }

  function Fill(n: Number): nat
    requires Printable(n)
  {
    if Length(n) < n.width then n.width - Length(n) else 0
  }

  /** Spaces in front, zeros behind the sign, or spaces behind. */
  function Before(n: Number): string
    requires Printable(n)
  {
    if n.flags.left || n.flags.zero then "" else Spaces(Fill(n))
  }

  function Inside(n: Number): string
    requires Printable(n)
  {
    if n.flags.zero && !n.flags.left then Zeros(Fill(n)) else ""
  }

  function After(n: Number): string
    requires Printable(n)
  {
    if n.flags.left then Spaces(Fill(n)) else ""
  }

  function Rendered(n: Number): string
    requires Printable(n)
  {
    if Length(n) == 0 then Before(n)
    else Before(n) + Head(n) + Inside(n) + Zeros(Padding(n)) + PrintedOf(n) + After(n)
  }

  /** With a precision of at least 1 exactly max(width, length) characters are printed. With precision 0 a number other
      than 0 falls short exactly if zeros at its end are lost, and 0 exactly if nothing but a fill of zeros or spaces
      behind is to be printed, which is left out then. */
  lemma PrintedLength(n: Number)
    requires Printable(n)
    ensures n.precision > 0 ==> |Rendered(n)| == FieldLength(n)
    ensures n.precision == 0 && n.value != 0 ==> (|Rendered(n)| == FieldLength(n) <==> Mod(n.value, n.radix) != 0)
    ensures n.precision == 0 && n.value == 0 ==>
      (|Rendered(n)| == FieldLength(n) <==> !(Length(n) == 0 && n.width > 0 && (n.flags.left || n.flags.zero)))
  {
    hide Digits, Mod;
    TrimmedIsAll(n.value, n.radix, n.flags.uppercase);
  }

  function FieldLength(n: Number): nat
    requires Printable(n)
  {
    if Length(n) < n.width then n.width else Length(n)
  }

  /** All digits of a number are printed exactly if the precision is at least 1 or the last digit is not 0. */
  lemma DigitsComplete(n: Number)
    requires Printable(n)
    ensures PrintedOf(n) == AllOf(n) <==> n.precision > 0 || Mod(n.value, n.radix) != 0
  {
    hide Digits, Trimmed, Mod;
    TrimmedIsAll(n.value, n.radix, n.flags.uppercase);
  }

  /** `%.0u` prints 100 as "1". */
  lemma PrecisionZeroLosesDigits()
    ensures Rendered(Number(Flags(false, false, false, false, false), 0, 0, 10, false, 100, "")) == "1"
  {
    assert Trimmed(100, 10, false) == Trimmed(10, 10, false) == Trimmed(1, 10, false) == Digits(1, 10, false);
    assert Digits(100, 10, false) == Digits(10, 10, false) + "0";
    assert "" + "" + "" + Zeros(0) + "1" + "" == "1";
  }

  // ----- How it is printed

  /** for(int i = from; i < to; i++) PUTCHAR(c) */
  method Repeat(out: string, c: char, from: nat, to: nat) returns (res: string)
    ensures |res| == |out| + (if from < to then to - from else 0)
    ensures res[..|out|] == out && forall i :: |out| <= i < |res| ==> res[i] == c
  {
    res := out;
    var i := from;
    while i < to
      invariant from <= i && (i > from ==> i <= to) && |res| == |out| + (i - from)
      invariant res[..|out|] == out && forall j :: |out| <= j < |res| ==> res[j] == c
    {
      res := res + [c];
      i := i + 1;
    }
  }

  method RepeatSpace(out: string, from: nat, to: nat) returns (res: string)
    ensures res == out + Spaces(if from < to then to - from else 0)
  {
    res := Repeat(out, ' ', from, to);
    assert res == res[..|out|] + res[|out|..];
    assert res[|out|..] == Spaces(if from < to then to - from else 0);
  }

  method RepeatZero(out: string, from: nat, to: nat) returns (res: string)
    ensures res == out + Zeros(if from < to then to - from else 0)
  {
    res := Repeat(out, '0', from, to);
    assert res == res[..|out|] + res[|out|..];
    assert res[|out|..] == Zeros(if from < to then to - from else 0);
  }

  /** The weight of the leading digit, and how many digits there are. */
  method Weigh(n: Number) returns (pw: nat, length: nat, ghost k: nat)
    requires Printable(n)
    ensures length == Counted(n) && pw == Power(n.radix, k) && pw < WORD
    ensures |AllOf(n)| == k + 1 && Div(n.value, pw) < n.radix && (k > 0 ==> pw <= n.value)
  {
    hide Mul, Div, Mod, Digits;
    pw := 1;
    length := if n.precision != 0 || n.value != 0 then 1 else 0;
    ghost var first := length;
    k := 0;
    DivSmall(n.value, 1);
    while Div(n.value, pw) >= n.radix
      invariant pw == Power(n.radix, k) && length == first + k && pw < WORD
      invariant k > 0 ==> pw <= n.value
      decreases Div(n.value, pw)
    {
      DivAtLeast(n.value, pw, n.radix);
      MulComm(pw, n.radix);
      MulPositive(n.radix, pw);
      DivTwice(n.value, pw, n.radix);
      DivLess(Div(n.value, pw), n.radix);
      pw := Mul(n.radix, pw);
      length := length + 1;
      k := k + 1;
    }
    DigitCount(n.value, n.radix, k, n.flags.uppercase);
  }

  /** While printing the digits: `m` of them are missing, `rest` is the number they make up, `done` are the others. */
  ghost predicate Emitted(n: Number, m: nat, rest: nat, done: string)
    requires Printable(n)
  {
    && m <= |AllOf(n)| && rest == Mod(n.value, Power(n.radix, m)) && (m == |AllOf(n)| ==> rest == n.value)
    && done == (if m == |AllOf(n)| then "" else Digits(Div(n.value, Power(n.radix, m)), n.radix, n.flags.uppercase))
    && (m < |AllOf(n)| && m > 0 ==> Div(n.value, Power(n.radix, m)) > 0)
    && (m < |AllOf(n)| && n.precision == 0 ==> Mod(n.value, Power(n.radix, m + 1)) != 0)
  }

  lemma EmittedNone(n: Number, k: nat)
    requires Printable(n) && |AllOf(n)| == k + 1 && Div(n.value, Power(n.radix, k)) < n.radix
    ensures Emitted(n, k + 1, n.value, "")
  {
    hide Mul, Div, Mod, Digits;
    var p := Power(n.radix, k);
    DivTwice(n.value, p, n.radix);
    MulComm(p, n.radix);
    DivSmall(Div(n.value, p), n.radix);
    DivSmall(n.value, Mul(n.radix, p));
  }

  lemma EmittedNext(n: Number, m: nat, rest: nat, done: string)
    requires Printable(n) && m > 0 && Emitted(n, m, rest, done) && (n.precision == 0 ==> rest != 0)
    requires m == |AllOf(n)| && m > 1 ==> Power(n.radix, m - 1) <= n.value
    requires m == |AllOf(n)| ==> Div(n.value, Power(n.radix, m - 1)) < n.radix
    ensures var p := Power(n.radix, m - 1);
      && Div(rest, p) < n.radix
      && Emitted(n, m - 1, Mod(rest, p), done + [DigitChar(Div(rest, p), n.flags.uppercase)])
  {
    hide Mul, Div, Mod, Digits;
    var p := Power(n.radix, m - 1);
    AppendDigit(n.value, n.radix, p, n.flags.uppercase);
    DivTwice(n.value, p, n.radix);
    MulComm(p, n.radix);
    DivSmall(Div(n.value, p), n.radix);
    DivAtLeast(n.value, p, 1);
    MulZero(p);
  }

  lemma EmittedAll(n: Number, m: nat, rest: nat, done: string)
    requires Printable(n) && Emitted(n, m, rest, done) && (m == 0 || (n.precision == 0 && rest == 0))
    ensures done == PrintedOf(n)
  {
    hide Mul, Div, Mod, Digits;
    DivSmall(n.value, 1);
    var p := Power(n.radix, m);
    if n.precision == 0 {
      DivTwice(n.value, p, n.radix);
      MulComm(p, n.radix);
      MulZero(p);
      if m < |AllOf(n)| { TrimmedAt(n.value, n.radix, m, n.flags.uppercase); }
    }
  }

  /** lbl_print_number */
  method Print(n: Number) returns (out: string)
    requires Printable(n)
    ensures out == Rendered(n)
  {
    hide Mul, Div, Mod, Digits, Trimmed, Spaces, Zeros, AllOf, PrintedOf;
    var pw, length;
    ghost var k;
    pw, length, k := Weigh(n);
    var precisionPad := 0;
    if n.precision > length { precisionPad := n.precision - length; }
    if precisionPad == 0 && n.flags.leadingZero && (n.value != 0 || !n.flags.noPrefixOnZero) { precisionPad := 1; }
    length := length + precisionPad;
    if n.negative {
      length := length + 1;
    } else if !n.flags.noPrefixOnZero || n.value != 0 {
      length := length + |n.prefix|;
    }
    assert precisionPad == Padding(n) && length == Length(n);
    out := "";
    if !n.flags.left && !n.flags.zero { out := RepeatSpace(out, length, n.width); }
    assert out == Before(n);
    if length == 0 { return; }
    if n.negative {
      out := out + "-";
    } else if !n.flags.noPrefixOnZero || n.value != 0 {
      out := out + n.prefix;
    }
    assert out == Before(n) + Head(n);
    if n.flags.zero && !n.flags.left { out := RepeatZero(out, length, n.width); }
    assert out == Before(n) + Head(n) + Inside(n);
    out := RepeatZero(out, 0, precisionPad);
    out := PrintDigits(out, n, pw, k);
    if n.flags.left { out := RepeatSpace(out, length, n.width); }
  }

  method PrintDigits(out: string, n: Number, weight: nat, ghost k: nat) returns (res: string)
    requires Printable(n) && weight == Power(n.radix, k) && |AllOf(n)| == k + 1
    requires Div(n.value, weight) < n.radix && (k > 0 ==> weight <= n.value)
    ensures res == out + PrintedOf(n)
  {
    hide Mul, Div, Mod, Digits, Trimmed, AllOf, PrintedOf, Emitted;
    res := out;
    var pw, rest := weight, n.value;
    ghost var m: nat, done: string := k + 1, "";
    EmittedNone(n, k);
    while pw != 0 && (n.precision != 0 || rest != 0)
      invariant m <= k + 1 && pw == (if m == 0 then 0 else Power(n.radix, m - 1))
      invariant Emitted(n, m, rest, done) && res == out + done
      decreases m
    {
      EmittedNext(n, m, rest, done);
      var c := Div(rest, pw);
      res := res + [DigitChar(c, n.flags.uppercase)];
      done := done + [DigitChar(c, n.flags.uppercase)];
      rest := Mod(rest, pw);
      LighterWeight(n.radix, m);
      pw := Div(pw, n.radix);
      m := m - 1;
    }
    EmittedAll(n, m, rest, done);
  }

  lemma LighterWeight(radix: nat, m: nat)
    requires radix >= 2 && m > 0
    ensures Div(Power(radix, m - 1), radix) == if m == 1 then 0 else Power(radix, m - 2)
  {
    hide Mul, Div, Mod;
    if m == 1 {
      DivSmall(1, radix);
    } else {
      DivIs(Power(radix, m - 1), radix, Power(radix, m - 2), 0);
    }
  }
}
