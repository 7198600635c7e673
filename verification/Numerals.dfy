/** The number parser: what it returns for every string, and for which numerals that is the value the
    numeral denotes (strtod in ISO/IEC 9899, without its infinities, NaNs and hexadecimal forms). Reals
    stand for doubles. */
module Numerals {

  // ---------------------------------------------------------------- runs of characters

  predicate IsDigit(c: char) { '0' <= c <= '9' }

  predicate IsSpace(c: char) { c == ' ' }

  predicate AllAre(s: string, p: char -> bool) { forall i :: 0 <= i < |s| ==> p(s[i]) }

  /** The first character; the terminating zero at the end. */
  function Head(s: string): char { if s == "" then '\0' else s[0] }

  /** The longest prefix whose characters all satisfy p. */
  function Take(s: string, p: char -> bool): (t: string)
    ensures |t| <= |s| && t == s[..|t|] && AllAre(t, p)
    ensures |t| < |s| ==> !p(s[|t|])
  {
    if s == "" || !p(s[0]) then ""
    else
      assert s[1..][..|Take(s[1..], p)|] == s[1..1 + |Take(s[1..], p)|];
      [s[0]] + Take(s[1..], p)
  }

  function Drop(s: string, p: char -> bool): string { s[|Take(s, p)|..] }

  lemma {:induction false} TakeIs(s: string, run: string, rest: string, p: char -> bool)
    requires s == run + rest && AllAre(run, p) && !p(Head(rest))
    ensures Take(s, p) == run && Drop(s, p) == rest
  {
    if run == "" {
      assert s == rest;
    } else {
      assert s[0] == run[0] && s[1..] == run[1..] + rest;
      TakeIs(s[1..], run[1..], rest, p);
    }
  }

  // ---------------------------------------------------------------- decimal values

  type Digits = s: string | AllAre(s, IsDigit) witness ""

  function Digit(c: char): nat
    requires IsDigit(c)
  {
    c as int - '0' as int
  }

  /** The natural number a string of digits denotes. */
  function Decimal(ds: Digits): nat {
    if ds == "" then 0 else Decimal(ds[..|ds| - 1]) * 10 + Digit(ds[|ds| - 1])
  }

  /** The decimal digits of a natural number. */
  function Show(n: nat): (ds: Digits) {
    if n < 10 then ["0123456789"[n]] else Show(n / 10) + ["0123456789"[n % 10]]
  }

  /** Reading back the digits of a number gives the number. */
  lemma {:induction false} DecimalOfShow(n: nat)
    ensures Decimal(Show(n)) == n
  {
    var d := "0123456789"[n % 10];
    assert Digit(d) == n % 10;
    if n < 10 {
      assert Show(n) == [d] && Show(n)[..0] == "";
    } else {
      DecimalOfShow(n / 10);
      assert Show(n)[..|Show(n)| - 1] == Show(n / 10);
    }
  }

  function PowTen(k: nat): (r: real)
    ensures r >= 1.0 && (r == 1.0 <==> k == 0)
  {
    if k == 0 then 1.0 else PowTen(k - 1) * 10.0
  }

  /** The value of digits after the point, added up digit by digit. */
  function Fraction(ds: Digits): real {
    if ds == "" then 0.0
    else Fraction(ds[..|ds| - 1]) + Digit(ds[|ds| - 1]) as real / PowTen(|ds|)
  }

  lemma {:induction false} FractionIsQuotient(ds: Digits)
    ensures Fraction(ds) == Decimal(ds) as real / PowTen(|ds|)
  {
    if ds != "" {
      var n := |ds|;
      FractionIsQuotient(ds[..n - 1]);
      OverTen(Decimal(ds[..n - 1]) as real, Digit(ds[n - 1]) as real, PowTen(n - 1));
    }
  }

  lemma OverTen(a: real, d: real, p: real)
    requires p > 0.0
    ensures p * 10.0 > 0.0 && a / p + d / (p * 10.0) == (a * 10.0 + d) / (p * 10.0)
  {
    assert a == (a / p) * p;
    assert d == (d / (p * 10.0)) * (p * 10.0);
    var q := a / p + d / (p * 10.0);
    assert q * (p * 10.0) == a * 10.0 + d;
  }

  // ---------------------------------------------------------------- what the parser returns

  function Signed(negative: bool, v: real): real { if negative then -v else v }

  function AfterSign(s: string): string {
    var t := Drop(s, IsSpace);
    if Head(t) == '-' then t[1..] else t
  }

  /** Spaces, a minus, and a number; zero unless a digit comes first. */
  function Parse(s: string): real {
    var u := AfterSign(s);
    if !IsDigit(Head(u)) then 0.0 else Signed(Head(Drop(s, IsSpace)) == '-', Unsigned(u))
  }

  function AfterPoint(u: string): string {
    var v := Drop(u, IsDigit);
    if Head(v) == '.' then v[1..] else v
  }

  /** Digits, point and fraction, and an exponent. */
  function Unsigned(u: string): real {
    var w := AfterPoint(u);
    Scaled(Decimal(Take(u, IsDigit)) as real + Fraction(Take(w, IsDigit)), Drop(w, IsDigit))
  }

  /** An exponent needs its sign; after one with a plus, a minus starts another. */
  function Scaled(m: real, x: string): real {
    if Head(x) != 'e' && Head(x) != 'E' then m
    else if Head(x[1..]) == '+' then ScaledDown(m * PowTen(Exponent(x[2..])), Drop(x[2..], IsDigit))
    else ScaledDown(m, x[1..])
  }

  function ScaledDown(m: real, y: string): real {
    if Head(y) == '-' then m / PowTen(Exponent(y[1..])) else m
  }

  function Exponent(x: string): nat { Decimal(Take(x, IsDigit)) }

  /** The exponents the parser reads stay inside its 32-bit counter, which holds each of them before
      the code of the digit zero is taken off. */
  predicate CounterHolds(s: string) {
    var u := AfterSign(s);
    IsDigit(Head(u)) ==> PowerHeld(Drop(AfterPoint(u), IsDigit))
  }

  predicate PowerHeld(x: string) {
    Head(x) in {'e', 'E'} ==>
      if Head(x[1..]) == '+' then ExponentHeld(x[2..]) && MinusHeld(Drop(x[2..], IsDigit)) else MinusHeld(x[1..])
  }

  predicate MinusHeld(y: string) { Head(y) == '-' ==> ExponentHeld(y[1..]) }

  predicate ExponentHeld(x: string) { Exponent(x) + '0' as int < 0x8000_0000 }

  // ---------------------------------------------------------------- numerals and what they denote

  datatype Sign = None | Plus | Minus

  datatype Power = NoPower | Power(mark: char, sign: Sign, digits: Digits)

  /** A decimal numeral as strtod reads it: white space, a sign, digits with or without a point, and
      an exponent. */
  datatype Numeral = Numeral(blanks: string, sign: Sign, whole: Digits, point: bool, fraction: Digits, power: Power)

  predicate IsBlank(c: char) { c in {' ', '\t', '\n', '\r', '\U{000B}', '\U{000C}'} }

  predicate WellFormed(n: Numeral) {
    && AllAre(n.blanks, IsBlank)
    && (n.whole != "" || n.fraction != "") && (!n.point ==> n.fraction == "")
    && (n.power.Power? ==> n.power.mark in {'e', 'E'} && n.power.digits != "")
  }

  function RenderPower(w: Power): string {
    match w
    case NoPower => ""
    case Power(mark, sign, digits) =>
      [mark] + RenderSign(sign) + digits
  }

  function RenderSign(sign: Sign): string {
    match sign
    case None => ""
    case Plus => "+"
    case Minus => "-"
  }

  function RenderUnsigned(n: Numeral): string {
    n.whole + (if n.point then "." else "") + n.fraction + RenderPower(n.power)
  }

  function Render(n: Numeral): string {
    n.blanks + RenderSign(n.sign) + RenderUnsigned(n)
  }

  /** What follows does not belong to the numeral: no digit, no point it could still have, and no
      exponent it could still have. */
  predicate Ends(n: Numeral, rest: string) {
    && !IsDigit(Head(rest))
    && (!n.point && n.power.NoPower? ==> Head(rest) != '.')
    && (n.power.NoPower? && Head(rest) in {'e', 'E'} ==>
          && !IsDigit(Head(rest[1..]))
          && (Head(rest[1..]) in {'+', '-'} ==> !IsDigit(Head(rest[2..]))))
  }

  function Mantissa(n: Numeral): real {
    Decimal(n.whole) as real + Decimal(n.fraction) as real / PowTen(|n.fraction|)
  }

  function Scale(m: real, w: Power): real {
    match w
    case NoPower => m
    case Power(_, Minus, digits) => m / PowTen(Decimal(digits))
    case Power(_, _, digits) => m * PowTen(Decimal(digits))
  }

  /** Sign times mantissa times ten to the exponent. */
  function Denotes(n: Numeral): real {
    (if n.sign == Minus then -1.0 else 1.0) * Scale(Mantissa(n), n.power)
  }

  /** The parser finds no digit where it looks for the first one: it skips no white space but spaces,
      takes no plus, and wants a digit before the point. */
  predicate Unseen(n: Numeral) {
    !AllAre(n.blanks, IsSpace) || n.sign == Plus || n.whole == ""
  }

  /** A minus and digits of a number other than zero, where the parser takes one for an exponent. */
  predicate ScalesDown(y: string) { Head(y) == '-' && Exponent(y[1..]) != 0 }

  /** The exponents the parser gets wrong: one without a sign, which it drops; and one with a plus, or
      a plus without digits, that is followed by a minus and digits, which it applies. */
  predicate PowerMisread(w: Power, rest: string) {
    match w
    case NoPower => Head(rest) in {'e', 'E'} && Head(rest[1..]) == '+' && ScalesDown(rest[2..])
    case Power(_, None, digits) => Decimal(digits) != 0
    case Power(_, Plus, _) => ScalesDown(rest)
    case Power(_, Minus, _) => false
  }

  predicate Misread(n: Numeral, rest: string) { Unseen(n) || PowerMisread(n.power, rest) }

  // ---------------------------------------------------------------- the parser reads numerals

  /** Whole part, point and fraction, then x, which is not a digit. */
  lemma MantissaReads(whole: Digits, point: bool, fraction: Digits, x: string)
    requires !IsDigit(Head(x)) && (!point ==> fraction == "" && Head(x) != '.')
    ensures Unsigned(whole + ((if point then "." else "") + (fraction + x)))
            == Scaled(Decimal(whole) as real + Fraction(fraction), x)
  {
    hide AllAre, Scaled, Decimal, Fraction, PowTen, Take, Drop;
    var w := fraction + x;
    var v := (if point then "." else "") + w;
    TakeIs(w, fraction, x, IsDigit);
    TakeIs(whole + v, whole, v, IsDigit);
    assert point ==> Head(v) == '.' && v[1..] == w;
    assert !point ==> v == w == x;
  }

  /** What follows the mantissa is not a digit, and not a point the mantissa lacks. */
  lemma PowerStarts(n: Numeral, rest: string)
    requires WellFormed(n) && Ends(n, rest)
    ensures var x := RenderPower(n.power) + rest;
            !IsDigit(Head(x)) && (!n.point ==> Head(x) != '.')
  {
    if n.power.Power? {
      assert (RenderPower(n.power) + rest)[0] == n.power.mark;
    } else {
      assert RenderPower(n.power) + rest == rest;
    }
  }

  lemma UnsignedReads(n: Numeral, rest: string)
    requires WellFormed(n) && Ends(n, rest)
    ensures Unsigned(RenderUnsigned(n) + rest) == Scaled(Mantissa(n), RenderPower(n.power) + rest)
  {
    hide AllAre, Scaled, Decimal, Fraction, PowTen, RenderPower, Unsigned, Ends, IsDigit;
    var x := RenderPower(n.power) + rest;
    var dot := if n.point then "." else "";
    PowerStarts(n, rest);
    MantissaReads(n.whole, n.point, n.fraction, x);
    FractionIsQuotient(n.fraction);
    assert RenderUnsigned(n) + rest == n.whole + (dot + (n.fraction + x));
  }

  /** Spaces and a minus in front of something else. */
  lemma SignReads(spaces: string, negative: bool, u: string)
    requires AllAre(spaces, IsSpace) && !IsSpace(Head(u)) && (negative || Head(u) != '-')
    ensures Parse(spaces + (if negative then "-" else "") + u)
            == if IsDigit(Head(u)) then Signed(negative, Unsigned(u)) else 0.0
  {
    hide AllAre, Unsigned, Take, Drop;
    var t := (if negative then "-" else "") + u;
    var s := spaces + (if negative then "-" else "") + u;
    assert s == spaces + t;
    TakeIs(s, spaces, t, IsSpace);
    assert negative ==> Head(t) == '-' && t[1..] == u;
    assert !negative ==> t == u;
  }

  lemma ParseReads(n: Numeral, rest: string)
    requires WellFormed(n) && Ends(n, rest) && !Unseen(n)
    ensures Parse(Render(n) + rest) == Signed(n.sign == Minus, Scaled(Mantissa(n), RenderPower(n.power) + rest))
  {
    hide Unsigned, Scaled, RenderPower, Parse, Mantissa, Ends, AllAre;
    var u := RenderUnsigned(n) + rest;
    assert Head(u) == n.whole[0] && IsDigit(n.whole[0]) by { FirstDigit(n.whole); }
    SignReads(n.blanks, n.sign == Minus, u);
    var front := n.blanks + (if n.sign == Minus then "-" else "");
    assert Render(n) + rest == front + u;
    UnsignedReads(n, rest);
  }

  lemma FirstDigit(ds: Digits)
    requires ds != ""
    ensures IsDigit(ds[0])
  {
  }

  /** White space other than spaces, a plus and a leading point each make the result zero. */
  lemma UnseenIsZero(n: Numeral, rest: string)
    requires WellFormed(n) && Unseen(n)
    ensures Parse(Render(n) + rest) == 0.0
  {
    hide Parse, AllAre, RenderUnsigned, RenderPower;
    var u := RenderUnsigned(n) + rest;
    if !AllAre(n.blanks, IsSpace) {
      OddBlankIsZero(n.blanks, RenderSign(n.sign) + u);
      assert Render(n) + rest == n.blanks + (RenderSign(n.sign) + u);
    } else if n.sign == Plus {
      SignReads(n.blanks, false, "+" + u);
      assert Render(n) + rest == n.blanks + "" + ("+" + u);
    } else {
      PointFirst(n, rest);
      SignReads(n.blanks, n.sign == Minus, u);
      assert Render(n) + rest == n.blanks + (if n.sign == Minus then "-" else "") + u;
    }
  }

  lemma OddBlankIsZero(blanks: string, v: string)
    requires AllAre(blanks, IsBlank) && !AllAre(blanks, IsSpace)
    ensures Parse(blanks + v) == 0.0
  {
    hide Parse;
    var spaces, odd := Take(blanks, IsSpace), Drop(blanks, IsSpace);
    assert blanks == spaces + odd;
    assert odd != "" && IsBlank(odd[0]);
    assert Head(odd + v) == odd[0];
    assert blanks + v == spaces + "" + (odd + v);
    SignReads(spaces, false, odd + v);
  }

  lemma PointFirst(n: Numeral, rest: string)
    requires WellFormed(n) && n.whole == ""
    ensures Head(RenderUnsigned(n) + rest) == '.'
  {
  }

  /** An exponent without a sign is not applied. */
  lemma NotScaled(m: real, mark: char, digits: Digits, rest: string)
    requires digits != ""
    ensures Scaled(m, RenderPower(Power(mark, None, digits)) + rest) == m
  {
    var x := RenderPower(Power(mark, None, digits)) + rest;
    assert x == [mark] + (digits + rest);
    assert Head(x[1..]) == digits[0];
  }

  /** A mark without an exponent: only a minus after its plus is taken for one. */
  lemma BareMark(m: real, n: Numeral, rest: string)
    requires Ends(n, rest) && n.power.NoPower?
    ensures Scaled(m, rest)
            == if Head(rest) in {'e', 'E'} && Head(rest[1..]) == '+' then ScaledDown(m, rest[2..]) else m
  {
    if Head(rest) in {'e', 'E'} && Head(rest[1..]) in {'+', '-'} {
      var y := rest[2..];
      assert rest[1..][1..] == y;
      assert Take(y, IsDigit) == "" && Drop(y, IsDigit) == y;
      assert m * PowTen(0) == m && m / PowTen(0) == m;
    }
  }

  lemma SignedScale(m: real, mark: char, sign: Sign, digits: Digits, rest: string)
    requires mark in {'e', 'E'} && sign != None && !IsDigit(Head(rest))
    ensures Scaled(m, RenderPower(Power(mark, sign, digits)) + rest)
            == if sign == Plus then ScaledDown(Scale(m, Power(mark, sign, digits)), rest)
               else Scale(m, Power(mark, sign, digits))
  {
    hide AllAre, PowTen, Decimal, ScaledDown;
    var c := if sign == Plus then '+' else '-';
    SignedPower(mark, sign, digits, rest);
    ScaledOf(m, mark, c, digits, rest);
  }

  lemma SignedPower(mark: char, sign: Sign, digits: Digits, rest: string)
    requires sign != None
    ensures RenderPower(Power(mark, sign, digits)) + rest
            == [mark] + ([if sign == Plus then '+' else '-'] + (digits + rest))
  {
    assert RenderSign(sign) == [if sign == Plus then '+' else '-'];
  }

  lemma ScaledOf(m: real, mark: char, c: char, digits: Digits, rest: string)
    requires mark in {'e', 'E'} && c in {'+', '-'} && !IsDigit(Head(rest))
    ensures Scaled(m, [mark] + ([c] + (digits + rest)))
            == if c == '+' then ScaledDown(Scale(m, Power(mark, Plus, digits)), rest)
               else Scale(m, Power(mark, Minus, digits))
  {
    hide AllAre, PowTen, Decimal, Take, Drop;
    var tail := digits + rest;
    var x := [mark] + ([c] + tail);
    assert Head(x) == mark && x[1..] == [c] + tail && x[1..][1..] == tail && x[2..] == tail;
    TakeIs(tail, digits, rest, IsDigit);
  }

  /** The exponent as the parser sees it. */
  lemma ScaledReads(m: real, n: Numeral, rest: string)
    requires WellFormed(n) && Ends(n, rest)
    ensures Scaled(m, RenderPower(n.power) + rest)
            == match n.power
               case NoPower =>
                 if Head(rest) in {'e', 'E'} && Head(rest[1..]) == '+' then ScaledDown(m, rest[2..]) else m
               case Power(_, None, _) => m
               case Power(_, Plus, _) => ScaledDown(Scale(m, n.power), rest)
               case Power(_, Minus, _) => Scale(m, n.power)
  {
    hide Scaled, ScaledDown, RenderPower, Scale;
    match n.power
    case NoPower =>
      assert RenderPower(n.power) + rest == rest by { NoPowerRenders(rest); }
      BareMark(m, n, rest);
    case Power(mark, None, digits) => NotScaled(m, mark, digits, rest);
    case Power(mark, sign, digits) => SignedScale(m, mark, sign, digits, rest);
  }

  lemma NoPowerRenders(rest: string)
    ensures RenderPower(NoPower) + rest == rest
  {
  }

  lemma TimesOne(m: real, p: real)
    requires p >= 1.0
    ensures m * p == m <==> m == 0.0 || p == 1.0
    ensures m / p == m <==> m == 0.0 || p == 1.0
    ensures m * p == 0.0 <==> m == 0.0
  {
    assert m * p - m == m * (p - 1.0);
    var q := m / p;
    assert q * p == m;
    assert q * p - q == q * (p - 1.0);
  }

  lemma ScaledDownExact(m: real, y: string)
    ensures ScaledDown(m, y) == m <==> m == 0.0 || !ScalesDown(y)
  {
    hide Exponent, PowTen;
    if Head(y) == '-' {
      TimesOne(m, PowTen(Exponent(y[1..])));
    }
  }

  lemma ScaleExact(m: real, w: Power)
    ensures Scale(m, w) == 0.0 <==> m == 0.0
    ensures w.Power? && w.sign == None ==> (Scale(m, w) == m <==> m == 0.0 || Decimal(w.digits) == 0)
  {
    hide Decimal;
    if w.Power? {
      TimesOne(m, PowTen(Decimal(w.digits)));
    }
  }

  /** What the parser makes of the exponent is right if and only if the mantissa is zero or it does not
      misread it. */
  lemma PowerExact(m: real, n: Numeral, rest: string)
    requires WellFormed(n) && Ends(n, rest)
    ensures Scaled(m, RenderPower(n.power) + rest) == Scale(m, n.power)
            <==> m == 0.0 || !PowerMisread(n.power, rest)
  {
    hide Scaled, ScaledDown, RenderPower, ScalesDown, Decimal, PowTen, Ends, WellFormed;
    ScaledReads(m, n, rest);
    ScaleExact(m, n.power);
    match n.power
    case NoPower =>
      if Head(rest) in {'e', 'E'} && Head(rest[1..]) == '+' {
        ScaledDownExact(m, rest[2..]);
      }
    case Power(_, Plus, _) => ScaledDownExact(Scale(m, n.power), rest);
    case _ =>
  }

  /** For every numeral and every continuation, the parser returns what the numeral denotes if and only
      if its digits are all zero or it has none of the misread shapes. */
  lemma ParseExact(n: Numeral, rest: string)
    requires WellFormed(n) && Ends(n, rest)
    ensures Parse(Render(n) + rest) == Denotes(n) <==> Mantissa(n) == 0.0 || !Misread(n, rest)
  {
    hide Mantissa, Parse, Render, Scaled, Scale, RenderPower, Ends, WellFormed, Unseen, PowerMisread;
    var m := Mantissa(n);
    ScaleExact(m, n.power);
    if Unseen(n) {
      UnseenIsZero(n, rest);
    } else {
      ParseReads(n, rest);
      PowerExact(m, n, rest);
    }
  }

  // ---------------------------------------------------------------- every string

  lemma TakeAndDrop(s: string, p: char -> bool)
    ensures s == Take(s, p) + Drop(s, p)
  {
  }

  lemma DigitsFirst(s: string)
    ensures s == Take(s, IsDigit) + Drop(s, IsDigit)
    ensures !IsDigit(Head(Drop(s, IsDigit))) && (IsDigit(Head(s)) <==> Take(s, IsDigit) != "")
  {
  }

  /** The exponent at the start of a string, and what follows it. */
  function ScanPower(x: string): (Power, string) {
    if Head(x) !in {'e', 'E'} then (NoPower, x)
    else if IsDigit(Head(x[1..])) then (Power(x[0], None, Take(x[1..], IsDigit)), Drop(x[1..], IsDigit))
    else if Head(x[1..]) in {'+', '-'} && IsDigit(Head(x[2..])) then
      (Power(x[0], if x[1] == '+' then Plus else Minus, Take(x[2..], IsDigit)), Drop(x[2..], IsDigit))
    else (NoPower, x)
  }

  /** An exponent without a sign, and one with a sign, put together again. */
  lemma BarePowerJoins(mark: char, y: string)
    ensures RenderPower(Power(mark, None, Take(y, IsDigit))) + Drop(y, IsDigit) == [mark] + y
  {
    DigitsFirst(y);
    hide AllAre, Take, Drop;
  }

  lemma SignedPowerJoins(mark: char, sign: Sign, y: string)
    requires sign != None
    ensures RenderPower(Power(mark, sign, Take(y, IsDigit))) + Drop(y, IsDigit)
            == [mark] + ([if sign == Plus then '+' else '-'] + y)
  {
    DigitsFirst(y);
    SignedPower(mark, sign, Take(y, IsDigit), Drop(y, IsDigit));
  }

  lemma ScanPowerRenders(x: string)
    ensures var (w, rest) := ScanPower(x); RenderPower(w) + rest == x
  {
    hide AllAre, Take, Drop, IsDigit, RenderPower;
    if Head(x) !in {'e', 'E'} {
      NoPowerRenders(x);
    } else if IsDigit(Head(x[1..])) {
      BarePowerJoins(x[0], x[1..]);
    } else if Head(x[1..]) in {'+', '-'} && IsDigit(Head(x[2..])) {
      SignedPowerJoins(x[0], if x[1] == '+' then Plus else Minus, x[2..]);
      assert x == [x[0]] + ([x[1]] + x[2..]);
    } else {
      NoPowerRenders(x);
    }
  }

  /** What was found is an exponent, and nothing is left of one where none was found. */
  lemma ScanPowerEnds(x: string)
    requires !IsDigit(Head(x))
    ensures var (w, rest) := ScanPower(x);
            && !IsDigit(Head(rest))
            && (w.Power? ==> w.mark in {'e', 'E'} && w.digits != "")
            && (w.NoPower? ==> rest == x)
            && (w.NoPower? && Head(x) in {'e', 'E'} ==>
                  !IsDigit(Head(x[1..])) && (Head(x[1..]) in {'+', '-'} ==> !IsDigit(Head(x[2..]))))
  {
    hide AllAre, Take, Drop, IsDigit;
    if Head(x) in {'e', 'E'} {
      DigitsFirst(x[1..]);
      if Head(x[1..]) in {'+', '-'} {
        DigitsFirst(x[2..]);
      }
    }
  }

  /** The parts of a numeral put together. */
  lemma PartsJoin(n: Numeral, rest: string, x: string, u: string)
    requires RenderPower(n.power) + rest == x
    requires u == n.whole + ((if n.point then "." else "") + (n.fraction + x))
    ensures RenderUnsigned(n) + rest == u
  {
    hide RenderPower, AllAre;
  }

  /** The numeral that begins with the digits of `u`. */
  lemma ScanUnsigned(spaces: string, sign: Sign, u: string) returns (n: Numeral, rest: string)
    requires AllAre(spaces, IsBlank) && IsDigit(Head(u))
    ensures WellFormed(n) && Ends(n, rest) && n.blanks == spaces && n.sign == sign
    ensures RenderUnsigned(n) + rest == u
  {
    hide AllAre, Take, Drop, IsDigit, ScanPower, RenderPower, RenderUnsigned;
    var v, w := Drop(u, IsDigit), AfterPoint(u);
    var x := Drop(w, IsDigit);
    DigitsFirst(u);
    DigitsFirst(w);
    PointSplits(u, v, w);
    ScanPowerRenders(x);
    ScanPowerEnds(x);
    n := Numeral(spaces, sign, Take(u, IsDigit), Head(v) == '.', Take(w, IsDigit), ScanPower(x).0);
    rest := ScanPower(x).1;
    PartsJoin(n, rest, x, u);
  }

  lemma PointSplits(u: string, v: string, w: string)
    requires v == Drop(u, IsDigit) && w == AfterPoint(u)
    ensures v == (if Head(v) == '.' then "." else "") + w
    ensures Head(v) != '.' ==> Take(w, IsDigit) == "" && Drop(w, IsDigit) == v
  {
    DigitsFirst(u);
  }

  /** The parser returns zero for a string that does not begin with a numeral, as strtod does. So the
      exact condition above speaks of every string. */
  lemma ZeroWithoutNumeral(s: string)
    ensures Parse(s) == 0.0 || exists n, rest :: WellFormed(n) && Ends(n, rest) && s == Render(n) + rest
  {
    hide *;
    var u := AfterSign(s);
    if IsDigit(Head(u)) {
      SpacesAreBlanks(s);
      var n, rest := ScanUnsigned(Take(s, IsSpace), SignOf(s), u);
      SignSplits(s);
      BlanksJoin(n, rest, u);
      assert s == Render(n) + rest;
    } else {
      ZeroWithoutDigit(s);
    }
  }

  function SignOf(s: string): Sign { if Head(Drop(s, IsSpace)) == '-' then Minus else None }

  lemma BlanksJoin(n: Numeral, rest: string, u: string)
    requires RenderUnsigned(n) + rest == u
    ensures Render(n) + rest == n.blanks + (RenderSign(n.sign) + u)
  {
    hide RenderUnsigned, RenderSign, AllAre;
  }

  lemma ZeroWithoutDigit(s: string)
    requires !IsDigit(Head(AfterSign(s)))
    ensures Parse(s) == 0.0
  {
  }

  lemma SpacesAreBlanks(s: string)
    ensures AllAre(Take(s, IsSpace), IsBlank)
  {
  }

  lemma SignSplits(s: string)
    ensures s == Take(s, IsSpace) + (RenderSign(SignOf(s)) + AfterSign(s))
  {
    TakeAndDrop(s, IsSpace);
    hide Take, Drop;
    var t := Drop(s, IsSpace);
    assert Head(t) == '-' ==> t == "-" + t[1..];
    assert t == "" + t;
  }
}
