/** Positional notation: the digits of a number and the number of a digit string. */
module Numerals {
  import opened Options
  import opened Arithmetic

  function DigitChar(d: nat, upper: bool): (c: char)
    requires d < 16
  {
    if d < 10 then '0' + d as char else if upper then 'A' + (d - 10) as char else 'a' + (d - 10) as char
  }

  /** The value of a hexadecimal digit of either case. */
  function DigitValue(c: char): Option<nat> {
    if '0' <= c <= '9' then Some((c - '0') as nat)
    else if 'a' <= c <= 'f' then Some((c - 'a') as nat + 10)
    else if 'A' <= c <= 'F' then Some((c - 'A') as nat + 10)
    else None
  }

  lemma DigitBack(d: nat, upper: bool)
    requires d < 16
    ensures DigitValue(DigitChar(d, upper)) == Some(d)
  {
  }

  /** A digit of the radix. */
  predicate IsDigit(c: char, radix: nat) {
    DigitValue(c).Some? && DigitValue(c).value < radix
  }

  predicate AllDigits(s: string, radix: nat) {
    forall i :: 0 <= i < |s| ==> IsDigit(s[i], radix)
  }

  function Power(radix: nat, k: nat): (p: nat)
    requires radix > 0
    ensures p > 0
  {
    if k == 0 then 1 else MulPositive(radix, Power(radix, k - 1)); Mul(radix, Power(radix, k - 1))
  }

  /** Most significant digit first, no leading zero except for 0 itself. */
  function Digits(v: nat, radix: nat, upper: bool): (s: string)
    requires 2 <= radix <= 16
    ensures s != []
    decreases v
  {
    DivMod(v, radix);
    if v < radix then [DigitChar(v, upper)]
    else DivLess(v, radix); Digits(Div(v, radix), radix, upper) + [DigitChar(Mod(v, radix), upper)]
  }

  function Value(s: string, radix: nat): nat
    requires AllDigits(s, radix)
  {
    if s == [] then 0 else Mul(Value(s[..|s| - 1], radix), radix) + DigitValue(s[|s| - 1]).value
  }

  lemma {:induction false} ValueOfDigits(v: nat, radix: nat, upper: bool)
    requires 2 <= radix <= 16
    ensures AllDigits(Digits(v, radix, upper), radix) && Value(Digits(v, radix, upper), radix) == v
    decreases v
  {
    hide Mul, Div, Mod, DigitValue, DigitChar;
    if v > 0 { DivLess(v, radix); }
    var s := Digits(v, radix, upper);
    DivMod(v, radix);
    DigitBack(Mod(v, radix), upper);
    MulZero(radix);
    if v >= radix {
      ValueOfDigits(Div(v, radix), radix, upper);
      assert s[..|s| - 1] == Digits(Div(v, radix), radix, upper);
      MulComm(radix, Div(v, radix));
    } else {
      DigitBack(v, upper);
      assert s[..|s| - 1] == [];
    }
  }

  /** Letters have the case asked for, and only 0 begins with a 0. */
  lemma {:induction false} DigitsShape(v: nat, radix: nat, upper: bool)
    requires 2 <= radix <= 16
    ensures var s := Digits(v, radix, upper);
      && (forall i :: 0 <= i < |s| ==> '0' <= s[i] <= '9' || (if upper then 'A' <= s[i] <= 'F' else 'a' <= s[i] <= 'f'))
      && (s[0] == '0' <==> v == 0)
    decreases v
  {
    hide Mul, Div, Mod;
    DivMod(v, radix);
    if v >= radix {
      DivLess(v, radix);
      DivAtLeast(v, radix, 1);
      MulZero(radix);
      DigitsShape(Div(v, radix), radix, upper);
    }
  }

  /** The leading digit counts for the power of the number of digits behind it. */
  lemma {:induction false} ValueFront(s: string, radix: nat)
    requires s != [] && AllDigits(s, radix) && radix > 0
    ensures AllDigits(s[1..], radix)
    ensures Value(s, radix) == Mul(DigitValue(s[0]).value, Power(radix, |s| - 1)) + Value(s[1..], radix)
  {
    hide Mul, DigitValue;
    MulZero(radix);
    MulZero(DigitValue(s[0]).value);
    if |s| > 1 {
      var n, d, p := |s| - 1, DigitValue(s[0]).value, Power(radix, |s| - 2);
      assert s[..n][1..] == s[1..][..n - 1];
      ValueFront(s[..n], radix);
      MulAdd(radix, Mul(d, p), Value(s[1..][..n - 1], radix));
      MulAssoc(d, p, radix);
      MulComm(p, radix);
    } else {
      assert s[..0] == [] && s[1..] == [];
    }
  }

  function Zeros(n: nat): (s: string)
    ensures |s| == n
    ensures forall i :: 0 <= i < n ==> s[i] == '0'
  {
    seq(n, _ => '0')
  }

  function Spaces(n: nat): (s: string)
    ensures |s| == n
    ensures forall i :: 0 <= i < n ==> s[i] == ' '
  {
    seq(n, _ => ' ')
  }

  lemma {:induction false} LeadingZeros(n: nat, s: string, radix: nat)
    requires AllDigits(s, radix) && radix > 0
    ensures AllDigits(Zeros(n) + s, radix) && Value(Zeros(n) + s, radix) == Value(s, radix)
  {
    hide Mul, Power;
    if n == 0 {
      assert Zeros(0) + s == s;
    } else {
      LeadingZeros(n - 1, s, radix);
      var t := Zeros(n) + s;
      assert t[1..] == Zeros(n - 1) + s;
      assert t[0] == '0' && forall i :: 0 < i < |t| ==> t[i] == t[1..][i - 1];
      ValueFront(t, radix);
      MulZero(Power(radix, |t| - 1));
    }
  }

  /** Writing one more digit of v: what is left below r * p gives the digit, what is left below p remains. */
  lemma AppendDigit(v: nat, radix: nat, p: nat, upper: bool)
    requires 2 <= radix <= 16 && p > 0
    ensures Mul(radix, p) > 0
    ensures var rest := Mod(v, Mul(radix, p));
      && Div(rest, p) < radix && Mod(rest, p) == Mod(v, p)
      && Digits(Div(v, p), radix, upper)
         == (if Div(v, Mul(radix, p)) > 0 then Digits(Div(v, Mul(radix, p)), radix, upper) else [])
            + [DigitChar(Div(rest, p), upper)]
  {
    hide Mul, Div, Mod, DigitChar;
    var q := Div(v, p);
    MulComm(radix, p);
    DivTwice(v, p, radix);
    DivMod(q, radix);
    DivMod(v, p);
    DivIs(Mod(v, Mul(radix, p)), p, Mod(q, radix), Mod(v, p));
    DivSmall(q, radix);
  }

  /** The number of digits is one more than the power that leaves a single digit. */
  lemma {:induction false} DigitCount(v: nat, radix: nat, k: nat, upper: bool)
    requires 2 <= radix <= 16 && Div(v, Power(radix, k)) < radix && (k > 0 ==> Power(radix, k) <= v)
    ensures |Digits(v, radix, upper)| == k + 1
    decreases k
  {
    hide Mul, Div, Mod, DigitChar;
    DivSmall(v, radix);
    if k > 0 {
      var p := Power(radix, k - 1);
      DivTwice(v, radix, p);
      MulPositive(radix, p);
      DivAtLeast(v, radix, p);
      DigitCount(Div(v, radix), radix, k - 1, upper);
    }
  }

  /** Digits without the zeros at the end; nothing for 0. */
  function Trimmed(v: nat, radix: nat, upper: bool): string
    requires 2 <= radix <= 16
    decreases v
  {
    DivMod(v, radix);
    if v == 0 then []
    else if Mod(v, radix) == 0 then DivLess(v, radix); Trimmed(Div(v, radix), radix, upper)
    else Digits(v, radix, upper)
  }

  lemma {:induction false} TrimmedAt(v: nat, radix: nat, m: nat, upper: bool)
    requires 2 <= radix <= 16 && Mod(v, Power(radix, m)) == 0 && Mod(Div(v, Power(radix, m)), radix) != 0
    ensures Trimmed(v, radix, upper) == Digits(Div(v, Power(radix, m)), radix, upper)
    decreases m
  {
    hide Mul, Div, Mod, Digits;
    DivSmall(v, radix);
    if m > 0 {
      var p := Power(radix, m - 1);
      DivTwice(v, radix, p);
      if Mod(Div(v, radix), p) > 0 { MulPositive(radix, Mod(Div(v, radix), p)); }
      if v == 0 {
        DivSmall(0, Power(radix, m));
        DivSmall(0, radix);
      }
      TrimmedAt(Div(v, radix), radix, m - 1, upper);
    }
  }

  /** Without its zeros at the end a number keeps its digits exactly if there are none. */
  lemma {:induction false} TrimmedIsAll(v: nat, radix: nat, upper: bool)
    requires 2 <= radix <= 16
    ensures Mod(v, radix) != 0 ==> Trimmed(v, radix, upper) == Digits(v, radix, upper)
    ensures Mod(v, radix) == 0 ==> |Trimmed(v, radix, upper)| < |Digits(v, radix, upper)|
    decreases v
  {
    hide Mul, Div, Mod, DigitChar;
    DivMod(v, radix);
    DivSmall(v, radix);
    DivSmall(0, radix);
    if v >= radix && Mod(v, radix) == 0 {
      DivLess(v, radix);
      TrimmedIsAll(Div(v, radix), radix, upper);
    }
  }

  /** Just the zeros at the end are missing. */
  lemma {:induction false} TrimmedZeros(v: nat, radix: nat, upper: bool) returns (k: nat)
    requires 2 <= radix <= 16 && v > 0
    ensures var s := Trimmed(v, radix, upper);
      s != "" && s[|s| - 1] != '0' && Digits(v, radix, upper) == s + Zeros(k)
    decreases v
  {
    hide Mul, Div, Mod;
    DivMod(v, radix);
    if Mod(v, radix) == 0 {
      DivSmall(v, radix);
      DivLess(v, radix);
      DivAtLeast(v, radix, 1);
      MulZero(radix);
      k := TrimmedZeros(Div(v, radix), radix, upper);
      assert Trimmed(v, radix, upper) + Zeros(k) + "0" == Trimmed(v, radix, upper) + Zeros(k + 1);
      k := k + 1;
    } else {
      k := 0;
      DivSmall(v, radix);
      assert Trimmed(v, radix, upper) + Zeros(0) == Trimmed(v, radix, upper);
    }
  }
}
