/**
  The three cell cleaners of `src/load_whoscored_data.py`, which turn the
  string-encoded fields of the scraped statistics into numbers and names:
  an appearance count such as `"12(3)"`, a per-game figure where `"-"` stands
  for none, and a team name with thousands-style commas.

  Python's `int` and `float` accept more spellings than modelled here: the
  parsers below take an optional sign followed by decimal digits (`int`), and
  an optional sign followed by digits with at most one decimal point (`float`).
*/
module Cleaners {
  import opened Results
  import opened Table

  predicate IsDigit(c: char) {
    '0' <= c <= '9'
  }

  predicate AllDigits(s: string) {
    forall i :: 0 <= i < |s| ==> IsDigit(s[i])
  }

  function DigitValue(c: char): nat
    requires IsDigit(c)
  {
    (c as int - '0' as int) as nat
  }

  /** The value of a string of decimal digits, most significant first. */
  function DigitsValue(s: string): nat
    requires AllDigits(s)
  {
    if s == [] then 0 else 10 * DigitsValue(s[..|s| - 1]) + DigitValue(s[|s| - 1])
  }

  function Pow10(n: nat): (p: nat)
    ensures p >= 1
  {
    if n == 0 then 1 else 10 * Pow10(n - 1)
  }

  /** The decimal spelling of `n`, as `str(n)` writes it. */
  function NatToString(n: nat): (s: string)
    ensures |s| >= 1
  {
    var last := [('0' as int + n % 10) as char];
    if n < 10 then last else NatToString(n / 10) + last
  }

  function IntToString(n: int): string {
    if n < 0 then "-" + NatToString(-n) else NatToString(n)
  }

  /** `int(s)` for a run of decimal digits with an optional sign in front;
      `None` where Python raises `ValueError`. */
  function ParseInt(s: string): (r: Option<int>)
    ensures r.Some? <==>
      (s != [] && AllDigits(s)) || (|s| >= 2 && (s[0] == '-' || s[0] == '+') && AllDigits(s[1..]))
    ensures s != [] && AllDigits(s) ==> r == Some(DigitsValue(s))
    ensures |s| >= 2 && s[0] == '+' && AllDigits(s[1..]) ==> r == Some(DigitsValue(s[1..]))
    ensures |s| >= 2 && s[0] == '-' && AllDigits(s[1..]) ==> r == Some(-(DigitsValue(s[1..]) as int))
  {
    if s == [] then None
    else if (s[0] == '-' || s[0] == '+') && |s| >= 2 && AllDigits(s[1..]) then
      var m: int := DigitsValue(s[1..]);
      Some(if s[0] == '-' then -m else m)
    else if AllDigits(s) then Some(DigitsValue(s))
    else None
  }

  /** `str.index`: the position of the first occurrence of `c`, or `None` where
      Python raises `ValueError`. */
  function IndexOf(s: string, c: char): (r: Option<nat>)
    ensures r.None? <==> c !in s
    ensures r.Some? ==> r.value < |s| && s[r.value] == c && c !in s[..r.value]
  {
    if s == [] then None
    else if s[0] == c then Some(0)
    else
      match IndexOf(s[1..], c)
      case None => None
      case Some(k) =>
        assert s[..k + 1] == [s[0]] + s[1..][..k];
        Some(k + 1)
  }

  /** `int(x)` of a number: the fractional part is cut off, rounding toward zero. */
  function TruncateToInt(x: real): (n: int)
    ensures 0.0 <= x ==> n as real <= x < n as real + 1.0
    ensures x < 0.0 ==> n as real - 1.0 < x <= n as real
  {
    if x >= 0.0 then x.Floor else -((-x).Floor)
  }

  /** `clean_apparition`. On text, the integer before the first `(`; when there
      is no `(` or the text before it is not an integer, the handler parses the
      whole string instead, and a failure there escapes as `ValueError`. On a
      number, `data.index` raises and the handler's `int(data)` truncates it.
      Whatever succeeds on text is an integer spelled by a bracket-free prefix. */
  function CleanApparition(data: Cell): (r: Result<int>)
    ensures r.Err? ==> r == Err("ValueError")
    ensures data.Num? ==> r == Ok(TruncateToInt(data.num))
    ensures data.Text? && r.Ok? ==>
      exists k :: 0 <= k <= |data.text| && '(' !in data.text[..k] && ParseInt(data.text[..k]) == Some(r.value)
  {
    match data
    case Num(x) => Ok(TruncateToInt(x))
    case Text(s) =>
      var whole := match ParseInt(s)
        case Some(n) => Ok(n)
        case None => Err("ValueError");
      match IndexOf(s, '(')
      case None =>
        assert s[..|s|] == s;
        whole
      case Some(k) =>
        match ParseInt(s[..k])
        case Some(n) => Ok(n)
        case None =>
          ParenIsNeverAnInteger(s);
          whole
  }

  /** The fallback can only succeed when there is no `(`: a string holding one
      is never an integer. */
  lemma ParenIsNeverAnInteger(s: string)
    requires '(' in s
    ensures ParseInt(s).None?
  {
    var i :| 0 <= i < |s| && s[i] == '(';
    assert !IsDigit(s[i]);
    if i > 0 {
      assert s[1..][i - 1] == '(';
    }
  }

  /** `clean_apparition` succeeds exactly when the text before the first `(`
      is an integer, or when there is no `(` and the whole string is one; in
      both cases the result is that integer. */
  lemma CleanApparitionSucceeds(data: string)
    ensures CleanApparition(Text(data)).Ok? <==>
      match IndexOf(data, '(')
      case Some(k) => ParseInt(data[..k]).Some?
      case None => ParseInt(data).Some?
    ensures CleanApparition(Text(data)).Ok? ==>
      match IndexOf(data, '(')
      case Some(k) => CleanApparition(Text(data)).value == ParseInt(data[..k]).value
      case None => CleanApparition(Text(data)).value == ParseInt(data).value
  {
    if '(' in data {
      ParenIsNeverAnInteger(data);
    }
  }

  /** Digits read back give the number they spell. */
  lemma {:induction false} NatToStringParses(n: nat)
    ensures AllDigits(NatToString(n)) && DigitsValue(NatToString(n)) == n
  {
    var s := NatToString(n);
    if n >= 10 {
      NatToStringParses(n / 10);
      assert s[..|s| - 1] == NatToString(n / 10);
    }
  }

  /** `int(str(n)) == n`. */
  lemma ParseIntOfIntToString(n: int)
    ensures ParseInt(IntToString(n)) == Some(n)
  {
    if n < 0 {
      NatToStringParses(-n);
      assert IntToString(n)[1..] == NatToString(-n);
    } else {
      NatToStringParses(n);
    }
  }

  /** The first `c` of a string whose prefix holds none is just after that prefix. */
  lemma {:induction false} IndexAfterPrefix(s: string, c: char, rest: string)
    requires c !in s
    ensures IndexOf(s + [c] + rest, c) == Some(|s|)
  {
    if s != [] {
      assert (s + [c] + rest)[1..] == s[1..] + [c] + rest;
      IndexAfterPrefix(s[1..], c, rest);
    }
  }

  /** `clean_apparition(str(n) + "(" + rest) == n`: the count of appearances
      before the bracketed substitute appearances. */
  lemma ApparitionBeforeBracket(n: int, rest: string)
    ensures CleanApparition(Text(IntToString(n) + "(" + rest)) == Ok(n)
  {
    var s := IntToString(n);
    ParseIntOfIntToString(n);
    IntegerHasNoParen(s);
    IndexAfterPrefix(s, '(', rest);
    assert (s + "(" + rest)[..|s|] == s;
  }

  /** `clean_apparition(str(n)) == n`: with no bracket the whole string is parsed. */
  lemma ApparitionWithoutBracket(n: int)
    ensures CleanApparition(Text(IntToString(n))) == Ok(n)
  {
    ParseIntOfIntToString(n);
    assert '(' !in IntToString(n) by {
      IntegerHasNoParen(IntToString(n));
    }
  }

  /** A string that parses as an integer holds no `(`. */
  lemma IntegerHasNoParen(s: string)
    requires ParseInt(s).Some?
    ensures '(' !in s
  {
    if '(' in s {
      ParenIsNeverAnInteger(s);
    }
  }

  /** A whole number is returned as it is, and a fractional one is cut toward
      zero on either side. */
  lemma ApparitionOfNumber(n: int)
    ensures CleanApparition(Num(n as real)) == Ok(n)
    ensures CleanApparition(Num(2.7)) == Ok(2) && CleanApparition(Num(-2.7)) == Ok(-2)
  {
  }

  /** Text before the bracket that is not a number makes both attempts fail. */
  lemma ApparitionOfBareBracketFails()
    ensures CleanApparition(Text("(3)")) == Err("ValueError")
  {
    assert IndexOf("(3)", '(') == Some(0);
    assert !AllDigits("(3)") by { assert !IsDigit("(3)"[0]); }
  }

  /** The value of the figure `whole.fraction`: the whole part plus the
      fraction's digits scaled down by ten to the power of their count. */
  function DecimalValue(whole: string, fraction: string): (x: real)
    requires AllDigits(whole) && AllDigits(fraction)
    ensures x >= 0.0
  {
    DigitsValue(whole) as real + (DigitsValue(fraction) as real) / (Pow10(|fraction|) as real)
  }

  /** The strings `UnsignedFloat` accepts: a run of digits, or digits on both
      sides of one decimal point with at least one digit in all. */
  predicate UnsignedFigure(s: string) {
    (s != [] && AllDigits(s)) ||
    (|s| >= 2 && exists k :: 0 <= k < |s| && s[k] == '.' && AllDigits(s[..k]) && AllDigits(s[k + 1..]))
  }

  /** A signed figure: an unsigned one, or an unsigned one after a `+` or `-`. */
  predicate SignedFigure(s: string) {
    UnsignedFigure(s) || (s != [] && (s[0] == '+' || s[0] == '-') && UnsignedFigure(s[1..]))
  }

  /** An unsigned decimal: digits with at most one decimal point and at least
      one digit; `None` for anything else. */
  function UnsignedFloat(s: string): (r: Option<real>)
    ensures r.Some? ==> r.value >= 0.0 && UnsignedFigure(s)
    ensures AllDigits(s) && s != [] ==> r == Some(DigitsValue(s) as real)
  {
    match IndexOf(s, '.')
    case None =>
      if s != [] && AllDigits(s) then Some(DigitsValue(s) as real) else None
    case Some(k) =>
      var whole, fraction := s[..k], s[k + 1..];
      if (whole != [] || fraction != []) && AllDigits(whole) && AllDigits(fraction) then
        Some(DecimalValue(whole, fraction))
      else None
  }

  /** `float(s)` for an unsigned decimal with an optional `+` or `-` in front;
      `None` where Python raises `ValueError`. */
  function ParseFloat(s: string): (r: Option<real>)
    ensures AllDigits(s) && s != [] ==> r == Some(DigitsValue(s) as real)
    ensures '-' !in s && r.Some? ==> r.value >= 0.0
    ensures r.Some? ==> SignedFigure(s)
  {
    if s != [] && (s[0] == '+' || s[0] == '-') then
      match UnsignedFloat(s[1..])
      case Some(x) => Some(if s[0] == '-' then -x else x)
      case None => None
    else UnsignedFloat(s)
  }

  /** A string of digits holds no other character. */
  lemma NonDigitAbsent(w: string, c: char)
    requires AllDigits(w) && !IsDigit(c)
    ensures c !in w
  {
  }

  /** The unsigned figure `w.f` is the whole part plus the fraction's digits
      scaled by its length. */
  lemma UnsignedDecimal(w: string, f: string)
    requires AllDigits(w) && AllDigits(f) && (w != [] || f != [])
    ensures UnsignedFloat(w + "." + f) ==
      Some(DecimalValue(w, f))
  {
    var s := w + "." + f;
    NonDigitAbsent(w, '.');
    IndexAfterPrefix(w, '.', f);
    assert IndexOf(s, '.') == Some(|w|);
    assert s[..|w|] == w;
    assert s[|w| + 1..] == f;
  }

  /** Every unsigned figure is accepted: with `UnsignedFloat`'s own contract,
      `UnsignedFloat(s)` is a value exactly when `s` is an unsigned figure. */
  lemma {:induction false} UnsignedFigureParses(s: string)
    requires UnsignedFigure(s)
    ensures UnsignedFloat(s).Some?
  {
    if !(s != [] && AllDigits(s)) {
      var k :| 0 <= k < |s| && s[k] == '.' && AllDigits(s[..k]) && AllDigits(s[k + 1..]);
      assert s == s[..k] + "." + s[k + 1..];
      UnsignedDecimal(s[..k], s[k + 1..]);
    }
  }

  /** Every signed figure is accepted: `ParseFloat(s)` is a value exactly when
      `s` is an optional sign followed by an unsigned figure. */
  lemma {:induction false} SignedFigureParses(s: string)
    requires SignedFigure(s)
    ensures ParseFloat(s).Some?
  {
    if UnsignedFigure(s) {
      UnsignedFigureParses(s);
    } else {
      UnsignedFigureParses(s[1..]);
    }
  }

  /** A figure `w.f` reads as the whole part plus the fraction's digits scaled
      by its length, so `"1.25"` reads as 1.25 and `"1."` and `".5"` are
      accepted. */
  lemma DecimalParses(w: string, f: string)
    requires AllDigits(w) && AllDigits(f) && (w != [] || f != [])
    ensures ParseFloat(w + "." + f) ==
      Some(DecimalValue(w, f))
  {
    UnsignedDecimal(w, f);
    var s := w + "." + f;
    if w != [] {
      assert s[0] == w[0] && IsDigit(w[0]);
    } else {
      assert s[0] == '.';
    }
  }

  /** A `+` in front changes nothing and a `-` negates: the sign applies to the
      unsigned figure after it. */
  lemma SignedParses(t: string)
    requires t == [] || (t[0] != '+' && t[0] != '-')
    ensures ParseFloat("+" + t) == ParseFloat(t)
    ensures ParseFloat("-" + t) == if ParseFloat(t).Some? then Some(-ParseFloat(t).value) else None
  {
    var plus, minus := "+" + t, "-" + t;
    assert plus[0] == '+' && plus[1..] == t;
    assert minus[0] == '-' && minus[1..] == t;
    assert ParseFloat(t) == UnsignedFloat(t);
  }

  /** `clean_float`: any text containing `-` becomes 0.0 (the placeholder `"-"`,
      and negative numbers too); other text becomes the number it spells, or is
      returned unchanged when it spells none; a cell that is already a number
      makes the `in` test raise `TypeError` and is returned unchanged. */
  function CleanFloat(data: Cell): (r: Cell)
    ensures r.Num? || r == data
    ensures data.Num? ==> r == data
    ensures data.Text? && '-' in data.text ==> r == Num(0.0)
    ensures data.Text? && '-' !in data.text ==> (r.Num? <==> ParseFloat(data.text).Some?)
    ensures data.Text? && '-' !in data.text && ParseFloat(data.text).Some? ==> r == Num(ParseFloat(data.text).value)
  {
    match data
    case Num(_) => data
    case Text(s) =>
      if '-' in s then Num(0.0)
      else
        match ParseFloat(s)
        case Some(x) => Num(x)
        case None => data
  }

  /** Cleaning a cleaned cell changes nothing, so a column can be cleaned twice. */
  lemma CleanFloatIdempotent(data: Cell)
    ensures CleanFloat(CleanFloat(data)) == CleanFloat(data)
  {
  }

  /** A count written in digits becomes that count. */
  lemma CleanFloatOfDigits(n: nat)
    ensures CleanFloat(Text(NatToString(n))) == Num(n as real)
  {
    NatToStringParses(n);
    assert '-' !in NatToString(n) by {
      assert !IsDigit('-');
    }
  }

  /** A per-game figure `w.f` becomes its value. */
  lemma CleanFloatOfDecimal(w: string, f: string)
    requires AllDigits(w) && AllDigits(f) && (w != [] || f != [])
    ensures CleanFloat(Text(w + "." + f)) ==
      Num(DecimalValue(w, f))
  {
    DecimalParses(w, f);
    NonDigitAbsent(w, '-');
    NonDigitAbsent(f, '-');
    assert '-' !in w + "." + f;
  }

  /** The placeholder and a negative figure both become 0.0, and a word is
      kept as it is. */
  lemma CleanFloatExamples()
    ensures CleanFloat(Text("-")) == Num(0.0)
    ensures CleanFloat(Text("-2.5")) == Num(0.0)
    ensures CleanFloat(Text("n/a")) == Text("n/a")
  {
    assert "-"[0] == '-';
    assert "-2.5"[0] == '-';
    assert !IsDigit("n/a"[0]);
  }

  /** A decimal figure becomes its value. */
  lemma CleanFloatOfTwoAndAHalf()
    ensures CleanFloat(Text("2.5")) == Num(2.5)
  {
    assert DecimalValue("2", "5") == 2.5 by {
      assert DigitsValue("2") == 2 && DigitsValue("5") == 5 && Pow10(1) == 10;
    }
    assert "2" + "." + "5" == "2.5";
    CleanFloatOfDecimal("2", "5");
  }

  /** A `+` in front of a figure is accepted and changes nothing. */
  lemma CleanFloatOfPlusSign()
    ensures CleanFloat(Text("+2.5")) == Num(2.5)
  {
    CleanFloatOfTwoAndAHalf();
    assert "+" + "2.5" == "+2.5";
    SignedParses("2.5");
    assert '-' !in "+2.5" by {
      assert "+2.5"[0] != '-' && "+2.5"[1] != '-' && "+2.5"[2] != '-' && "+2.5"[3] != '-';
    }
  }

  /** `clean_text`: `str.replace(",", "")`, every comma dropped. */
  function CleanText(data: string): (r: string)
    ensures ',' !in r
    ensures |r| <= |data|
    ensures forall c :: c in r ==> c in data
  {
    if data == [] then []
    else (if data[0] == ',' then [] else [data[0]]) + CleanText(data[1..])
  }

  /** Cleaning a concatenation cleans each part: together with the single
      character case, every non-comma character is kept, in its order. */
  lemma {:induction false} CleanTextConcat(a: string, b: string)
    ensures CleanText(a + b) == CleanText(a) + CleanText(b)
  {
    if a == [] {
      assert a + b == b;
    } else {
      assert (a + b)[0] == a[0] && (a + b)[1..] == a[1..] + b;
      CleanTextConcat(a[1..], b);
    }
  }

  /** A single character is kept unless it is a comma. */
  lemma CleanTextOfChar(c: char)
    ensures CleanText([c]) == if c == ',' then [] else [c]
  {
  }

  /** Text without a comma comes back unchanged. */
  lemma {:induction false} CleanTextWithoutComma(data: string)
    requires ',' !in data
    ensures CleanText(data) == data
  {
    if data != [] {
      CleanTextWithoutComma(data[1..]);
    }
  }

  /** Cleaning twice is cleaning once. */
  lemma CleanTextIdempotent(data: string)
    ensures CleanText(CleanText(data)) == CleanText(data)
  {
    CleanTextWithoutComma(CleanText(data));
  }
}
