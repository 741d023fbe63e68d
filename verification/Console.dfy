/** Arguments of a command line and the numbers in them (init/src/console.c:40-93), and what they make of printed
    numbers. */
module Console {
  import opened Machine
  import opened Options
  import opened Arithmetic
  import opened Numerals
  import opened NumberFormat
  import opened Directives

  predicate IsWhitespace(c: char) { c == ' ' || c == '\t' }

  // ----- get_arg

  function SkipSpace(s: string): (r: string)
    ensures |r| <= |s|
  {
    if s == "" || !IsWhitespace(s[0]) then s else SkipSpace(s[1..])
  }

  /** Up to the first blank; a tab does not end an argument. */
  function Word(s: string): (r: string)
    ensures |r| <= |s|
  {
    if s == "" || s[0] == ' ' then "" else [s[0]] + Word(s[1..])
  }

  /** The text after k separators; None if there are fewer. */
  function AfterSeparators(s: string, k: nat): Option<string>
    decreases |s|, k
  {
    if k == 0 then Some(s)
    else if s == "" then None
    else if IsWhitespace(s[0]) then SkipIsShorter(s); AfterSeparators(SkipSpace(s), k - 1)
    else AfterSeparators(s[1..], k)
  }

  lemma SkipIsShorter(s: string)
    requires s != "" && IsWhitespace(s[0])
    ensures |SkipSpace(s)| < |s|
  {
  }

  function ArgOf(s: string, k: nat): Option<string> {
    match AfterSeparators(s, k)
    case None => None
    case Some(t) => if Word(t) == "" then None else Some(Word(t))
  }

  method SkipBlanks(str: string, start: nat) returns (i: nat)
    requires start <= |str|
    ensures start <= i <= |str| && str[i..] == SkipSpace(str[start..])
    ensures start < |str| && IsWhitespace(str[start]) ==> i > start
  {
    i := start;
    while i < |str| && IsWhitespace(str[i])
      invariant start <= i <= |str| && SkipSpace(str[start..]) == SkipSpace(str[i..])
      invariant i == start ==> str[i..] == str[start..]
    {
      assert str[i..][1..] == str[i + 1..];
      i := i + 1;
    }
  }

  lemma WordNext(str: string, start: nat, i: nat)
    requires start <= i < |str| && str[i] != ' '
    ensures str[start..i] + Word(str[i..]) == str[start..i + 1] + Word(str[i + 1..])
  {
    assert str[i..][1..] == str[i + 1..];
    var rest := Word(str[i + 1..]);
    assert str[start..i] + ([str[i]] + rest) == str[start..i + 1] + rest;
  }

  method WordLength(str: string, start: nat) returns (length: nat)
    requires start <= |str|
    ensures start + length <= |str| && str[start..start + length] == Word(str[start..])
  {
    hide Word;
    length := 0;
    WordAtBlank(str, start);
    while start + length < |str| && str[start + length] != ' '
      invariant start + length <= |str|
      invariant Word(str[start..]) == str[start..start + length] + Word(str[start + length..])
    {
      WordNext(str, start, start + length);
      length := length + 1;
    }
    WordAtBlank(str, start + length);
  }

  lemma WordAtBlank(str: string, i: nat)
    requires i <= |str|
    ensures i == |str| || str[i] == ' ' ==> Word(str[i..]) == ""
    ensures str[i..i] + Word(str[i..]) == Word(str[i..])
  {
  }

  /** get_arg on a string without its terminator; None stands for the error return. */
  method GetArg(str: string, argc: nat) returns (res: Option<string>)
    ensures res == ArgOf(str, argc)
  {
    hide Word, SkipSpace;
    var cur: nat, i: nat := 0, 0;
    assert str[0..] == str;
    while i < |str| && cur != argc
      invariant i <= |str| && cur <= argc && AfterSeparators(str, argc) == AfterSeparators(str[i..], argc - cur)
    {
      if IsWhitespace(str[i]) {
        i := SkipBlanks(str, i);
        cur := cur + 1;
      } else {
        assert str[i..][1..] == str[i + 1..];
        i := i + 1;
      }
    }
    if cur != argc { return None; }
    var length := WordLength(str, i);
    if length <= 0 { return None; }
    return Some(str[i..i + length]);
  }

  /** A command line: each word with the blanks behind it. */
  function Line(words: seq<string>, gaps: seq<string>): string
    requires |gaps| == |words|
  {
    if words == [] then "" else words[0] + (gaps[0] + Line(words[1..], gaps[1..]))
  }

  predicate Blank(gap: string) {
    forall i :: 0 <= i < |gap| ==> IsWhitespace(gap[i])
  }

  /** Only the last word may have nothing behind it. */
  predicate Separates(gaps: seq<string>) {
    && (forall i :: 0 <= i < |gaps| ==> Blank(gaps[i]))
    && (forall i :: 0 <= i < |gaps| - 1 ==> gaps[i] != "")
  }

  predicate Plain(w: string) {
    w != "" && ' ' !in w && '\t' !in w
  }

  lemma {:induction false} PastWord(w: string, s: string, k: nat)
    requires ' ' !in w && '\t' !in w && k > 0
    ensures AfterSeparators(w + s, k) == AfterSeparators(s, k)
  {
    if w == "" {
      assert w + s == s;
    } else {
      assert (w + s)[1..] == w[1..] + s;
      PastWord(w[1..], s, k);
    }
  }

  lemma {:induction false} WordIs(a: string, b: string)
    requires ' ' !in a && (b == "" || b[0] == ' ')
    ensures Word(a + b) == a
  {
    if a == "" {
      assert a + b == b;
    } else {
      assert (a + b)[1..] == a[1..] + b;
      WordIs(a[1..], b);
    }
  }

  lemma {:induction false} WordGoesOn(a: string, b: string)
    requires ' ' !in a && b != "" && b[0] != ' '
    ensures |Word(a + b)| > |a|
  {
    if a == "" {
      assert a + b == b;
    } else {
      assert (a + b)[1..] == a[1..] + b;
      WordGoesOn(a[1..], b);
    }
  }

  lemma {:induction false} GapSkipped(gap: string, s: string)
    requires Blank(gap) && (s == "" || !IsWhitespace(s[0]))
    ensures SkipSpace(gap + s) == s
  {
    if gap == "" {
      assert gap + s == s;
    } else {
      assert (gap + s)[1..] == gap[1..] + s;
      GapSkipped(gap[1..], s);
    }
  }

  lemma LineFront(words: seq<string>, gaps: seq<string>)
    requires |gaps| == |words| && forall i :: 0 <= i < |words| ==> Plain(words[i])
    ensures Line(words, gaps) == "" || !IsWhitespace(Line(words, gaps)[0])
  {
  }

  lemma PastGap(gap: string, s: string, k: nat)
    requires gap != "" && Blank(gap) && (s == "" || !IsWhitespace(s[0])) && k > 0
    ensures AfterSeparators(gap + s, k) == AfterSeparators(s, k - 1)
  {
    GapSkipped(gap, s);
  }

  /** The k-th argument of a command line is its k-th word exactly if no tab stands right behind that word, whatever the
      blanks elsewhere; and there are no further arguments. */
  lemma {:induction false} ArgumentsAreWords(words: seq<string>, gaps: seq<string>, k: nat)
    requires |gaps| == |words| && Separates(gaps) && forall i :: 0 <= i < |words| ==> Plain(words[i])
    ensures k < |words| ==> (ArgOf(Line(words, gaps), k) == Some(words[k]) <==> gaps[k] == "" || gaps[k][0] == ' ')
    ensures k >= |words| ==> ArgOf(Line(words, gaps), k) == None
    decreases |words|
  {
    hide Word, SkipSpace;
    if words == [] {
      WordAtBlank("", 0);
    } else {
      var w, gap, rest := words[0], gaps[0], Line(words[1..], gaps[1..]);
      var tail := gap + rest;
      LineFront(words[1..], gaps[1..]);
      if k == 0 {
        assert gap == "" ==> tail == "";
        if gap == "" || gap[0] == ' ' { WordIs(w, tail); } else { WordGoesOn(w, tail); }
      } else {
        PastWord(w, tail, k);
        if gap == "" {
          assert tail == "";
        } else {
          PastGap(gap, rest, k);
          ArgumentsAreWords(words[1..], gaps[1..], k - 1);
        }
      }
    }
  }

  /** A tab ends the search for an argument but not the argument. */
  lemma TabInArgument()
    ensures ArgOf("a\tb", 0) == Some("a\tb") && ArgOf("a\tb", 1) == Some("b")
  {
    WordIs("a\tb", "");
    WordIs("b", "");
    PastWord("a", "\tb", 1);
    PastGap("\t", "b", 1);
    assert "a\tb" + "" == "a\tb" == "a" + "\tb" && "b" + "" == "b" && "\tb" == "\t" + "b";
  }

  /** Blanks in front of the first word shift all arguments by one. */
  lemma LeadingBlanks(lead: string, words: seq<string>, gaps: seq<string>, k: nat)
    requires lead != "" && Blank(lead)
    requires |gaps| == |words| && forall i :: 0 <= i < |words| ==> Plain(words[i])
    ensures ArgOf(lead + Line(words, gaps), k + 1) == ArgOf(Line(words, gaps), k)
    ensures lead[0] == ' ' ==> ArgOf(lead + Line(words, gaps), 0) == None
  {
    hide SkipSpace;
    LineFront(words, gaps);
    PastGap(lead, Line(words, gaps), k + 1);
  }

  // ----- get_arg_num

  predicate IsHex(arg: string) { |arg| >= 2 && arg[0] == '0' && arg[1] == 'x' }

  /** The number of an argument: hexadecimal after 0x, else decimal; modulo 2^64. */
  function NumOf(arg: string): Option<nat> {
    var radix := if IsHex(arg) then 16 else 10;
    var digits := if IsHex(arg) then arg[2..] else arg;
    if AllDigits(digits, radix) then Some(Mod(Value(digits, radix), WORD)) else None
  }

  /** Digits behind "0x" are hexadecimal, other digits decimal, and nothing else is a number. */
  lemma NumberMeant(arg: string)
    ensures forall rest :: arg == "0x" + rest && AllDigits(rest, 16) ==> NumOf(arg) == Some(Mod(Value(rest, 16), WORD))
    ensures AllDigits(arg, 10) ==> NumOf(arg) == Some(Mod(Value(arg, 10), WORD))
    ensures NumOf(arg).Some? ==> AllDigits(arg, 10) || exists rest :: arg == "0x" + rest && AllDigits(rest, 16)
  {
    hide Mod, Value;
    forall rest | arg == "0x" + rest && AllDigits(rest, 16)
      ensures NumOf(arg) == Some(Mod(Value(rest, 16), WORD))
    {
      assert arg[2..] == rest;
    }
    if AllDigits(arg, 10) && |arg| >= 2 { assert IsDigit(arg[1], 10); }
    if NumOf(arg).Some? && IsHex(arg) { assert arg == "0x" + arg[2..]; }
  }

  lemma DecimalDigit(c: char)
    ensures IsDigit(c, 10) <==> '0' <= c <= '9'
    ensures IsDigit(c, 16) <==> ('0' <= c <= '9' || 'a' <= c <= 'f' || 'A' <= c <= 'F')
  {
  }

  /** The last digits of a string, least significant first: sum and power stay 64-bit words. */
  ghost predicate Summed(digits: string, from: nat, radix: nat, sum: nat, pow: nat)
    requires radix > 0 && from <= |digits|
  {
    && AllDigits(digits[from..], radix)
    && sum == Mod(Value(digits[from..], radix), WORD)
    && pow == Mod(Power(radix, |digits| - from), WORD)
  }

  lemma SumStart(digits: string, radix: nat)
    requires radix > 0
    ensures Summed(digits, |digits|, radix, 0, 1)
  {
    hide Mul, Div, Mod;
    DivSmall(0, WORD);
    DivSmall(1, WORD);
    assert digits[|digits|..] == "";
  }

  lemma SumStep(digits: string, from: nat, radix: nat, sum: nat, pow: nat)
    requires 0 < radix < WORD && 0 < from <= |digits| && Summed(digits, from, radix, sum, pow)
    requires IsDigit(digits[from - 1], radix)
    ensures Summed(digits, from - 1, radix, Mod(sum + Mul(DigitValue(digits[from - 1]).value, pow), WORD),
                   Mod(Mul(pow, radix), WORD))
  {
    hide Mul, Div, Mod, DigitValue;
    var t, d := digits[from - 1..], DigitValue(digits[from - 1]).value;
    var p, v := Power(radix, |digits| - from), Value(digits[from..], radix);
    assert t[1..] == digits[from..] && t[0] == digits[from - 1];
    assert forall i :: 0 < i < |t| ==> t[i] == digits[from..][i - 1];
    ValueFront(t, radix);
    ModAdd(v, Mul(d, pow), WORD);
    ModAdd(Mul(d, pow), v, WORD);
    ModAdd(Mul(d, p), v, WORD);
    ModMul(d, p, WORD);
    MulComm(pow, radix);
    ModMul(radix, p, WORD);
  }

  /** get_arg_num */
  method GetArgNum(str: string, argc: nat) returns (res: Option<nat>)
    ensures res == match ArgOf(str, argc) case None => None case Some(arg) => NumOf(arg)
  {
    hide Mul, Div, Mod, Value, Power, ArgOf, DigitValue;
    var found := GetArg(str, argc);
    if found.None? { return None; }
    var arg := found.value;
    var value: nat, pow: nat := 0, 1;
    var i: int := |arg| - 1;
    if IsHex(arg) {
      ghost var digits := arg[2..];
      SumStart(digits, 16);
      while i >= 2
        invariant 1 <= i < |arg| && Summed(digits, i - 1, 16, value, pow)
      {
        DecimalDigit(arg[i]);
        NotAllDigits(digits, i - 2, 16);
        if !IsDigit(arg[i], 16) { return None; }
        SumStep(digits, i - 1, 16, value, pow);
        value := Mod(value + Mul(DigitValue(arg[i]).value, pow), WORD);
        pow := Mod(Mul(pow, 16), WORD);
        i := i - 1;
      }
      assert digits[0..] == digits;
    } else {
      SumStart(arg, 10);
      while i >= 0
        invariant -1 <= i < |arg| && Summed(arg, i + 1, 10, value, pow)
      {
        DecimalDigit(arg[i]);
        NotAllDigits(arg, i, 10);
        if arg[i] < '0' || arg[i] > '9' { return None; }
        SumStep(arg, i + 1, 10, value, pow);
        value := Mod(value + Mul(DigitValue(arg[i]).value, pow), WORD);
        pow := Mod(Mul(pow, 10), WORD);
        i := i - 1;
      }
      assert arg[0..] == arg;
    }
    return Some(value);
  }

  lemma NotAllDigits(s: string, i: nat, radix: nat)
    requires i < |s|
    ensures AllDigits(s, radix) ==> IsDigit(s[i], radix)
  {
  }
}
