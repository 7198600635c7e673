/** myatof step by step: a position in the string, an accumulator and a 32-bit exponent counter. */
module Util {
  import opened Numerals

  newtype int32 = x: int | -0x8000_0000 <= x < 0x8000_0000

  /** The character at a position; the terminating zero at the end. */
  function At(s: string, i: nat): (c: char)
    requires i <= |s|
    ensures c == Head(s[i..])
  {
    if i == |s| then '\0' else s[i]
  }

  /** One more digit of a run. */
  lemma TakeGrows(s: string, start: nat, i: nat, p: char -> bool)
    requires start <= i <= |s| && AllAre(s[start..i], p)
    ensures i < |s| && p(s[i]) ==> s[start..i + 1] == s[start..i] + [s[i]] && AllAre(s[start..i + 1], p)
    ensures !p(Head(s[i..])) ==> Take(s[start..], p) == s[start..i] && Drop(s[start..], p) == s[i..]
  {
    if !p(Head(s[i..])) {
      assert s[start..] == s[start..i] + s[i..];
      TakeIs(s[start..], s[start..i], s[i..], p);
    }
  }

  lemma DecimalGrows(ds: Digits, c: char)
    requires IsDigit(c)
    ensures AllAre(ds + [c], IsDigit) && Decimal(ds + [c]) == Decimal(ds) * 10 + Digit(c)
    ensures Fraction(ds + [c]) == Fraction(ds) + Digit(c) as real / PowTen(|ds| + 1)
  {
    assert (ds + [c])[..|ds|] == ds;
  }

  lemma EmptyIsZero(ds: Digits)
    requires ds == ""
    ensures Decimal(ds) == 0
  {
  }

  /** No prefix of a run of digits denotes more than the run. */
  lemma {:induction false} PrefixSmaller(ds: Digits, i: nat)
    requires i <= |ds|
    ensures Decimal(ds[..i]) <= Decimal(ds)
  {
    if i < |ds| {
      assert ds[..|ds| - 1][..i] == ds[..i];
      PrefixSmaller(ds[..|ds| - 1], i);
    } else {
      assert ds[..i] == ds;
    }
  }

  lemma PrefixHeld(s: string, start: nat, i: nat)
    requires start <= i <= |s| && AllAre(s[start..i], IsDigit)
    ensures Decimal(s[start..i]) <= Exponent(s[start..])
  {
    var run := Take(s[start..], IsDigit);
    assert forall k :: 0 <= k < i - start ==> s[start..][k] == s[start..i][k];
    assert run[..i - start] == s[start..i];
    PrefixSmaller(run, i - start);
  }

  method SkipSpaces(s: string) returns (i: nat)
    ensures i <= |s| && s[i..] == Drop(s, IsSpace)
  {
    i := 0;
    while At(s, i) == ' '
      invariant i <= |s| && AllAre(s[..i], IsSpace)
      decreases |s| - i
    {
      i := i + 1;
    }
    TakeGrows(s, 0, i, IsSpace);
    assert s[0..] == s;
  }

  method ReadWhole(s: string, start: nat) returns (i: nat, v: real)
    requires start <= |s|
    ensures start <= i <= |s| && s[i..] == Drop(s[start..], IsDigit)
    ensures v == Decimal(Take(s[start..], IsDigit)) as real
  {
    i, v := start, 0.0;
    while '0' <= At(s, i) <= '9' && At(s, i) != '.'
      invariant start <= i <= |s| && AllAre(s[start..i], IsDigit)
      invariant v == Decimal(s[start..i]) as real
      decreases |s| - i
    {
      TakeGrows(s, start, i, IsDigit);
      DecimalGrows(s[start..i], s[i]);
      v := v * 10.0 + (At(s, i) as int - '0' as int) as real;
      i := i + 1;
    }
    TakeGrows(s, start, i, IsDigit);
  }

  method ReadFraction(s: string, start: nat, whole: real) returns (i: nat, v: real)
    requires start <= |s|
    ensures start <= i <= |s| && s[i..] == Drop(s[start..], IsDigit)
    ensures v == whole + Fraction(Take(s[start..], IsDigit))
  {
    i, v := start, whole;
    var d := 10.0;
    while '0' <= At(s, i) <= '9'
      invariant start <= i <= |s| && AllAre(s[start..i], IsDigit)
      invariant v == whole + Fraction(s[start..i]) && d == PowTen(i - start + 1)
      decreases |s| - i
    {
      TakeGrows(s, start, i, IsDigit);
      DecimalGrows(s[start..i], s[i]);
      v := v + (At(s, i) as int - '0' as int) as real / d;
      d := d * 10.0;
      i := i + 1;
    }
    TakeGrows(s, start, i, IsDigit);
  }

  method ReadExponent(s: string, start: nat) returns (i: nat, count: int32)
    requires start <= |s| && ExponentHeld(s[start..])
    ensures start <= i <= |s| && s[i..] == Drop(s[start..], IsDigit)
    ensures count as int == Exponent(s[start..])
  {
    hide Take, Drop, Decimal;
    i, count := start, 0;
    assert Decimal(s[start..i]) == 0 by { EmptyIsZero(s[start..i]); }
    while '0' <= At(s, i) <= '9'
      invariant start <= i <= |s| && AllAre(s[start..i], IsDigit)
      invariant count as int == Decimal(s[start..i])
      decreases |s| - i
    {
      TakeGrows(s, start, i, IsDigit);
      DecimalGrows(s[start..i], s[i]);
      PrefixHeld(s, start, i + 1);
      count := count * 10 + At(s, i) as int32 - '0' as int32;
      i := i + 1;
    }
    TakeGrows(s, start, i, IsDigit);
  }

  method ScaleUp(m: real, count: int32) returns (v: real)
    requires count >= 0
    ensures v == m * PowTen(count as nat)
  {
    v := m;
    var n := count;
    while n > 0
      invariant 0 <= n <= count && v == m * PowTen((count - n) as nat)
    {
      v := v * 10.0;
      n := n - 1;
    }
  }

  method ScaleDown(m: real, count: int32) returns (v: real)
    requires count >= 0
    ensures v == m / PowTen(count as nat)
  {
    v := m;
    var n := count;
    while n > 0
      invariant 0 <= n <= count && v == m / PowTen((count - n) as nat)
    {
      DivideAgain(m, PowTen((count - n) as nat));
      v := v / 10.0;
      n := n - 1;
    }
  }

  lemma DivideAgain(m: real, p: real)
    requires p >= 1.0
    ensures p * 10.0 > 0.0 && m / p / 10.0 == m / (p * 10.0)
  {
    assert (m / p) * p == m;
    assert (m / p / 10.0) * (p * 10.0) == m;
  }

  /** The exponent part, from the position after the mantissa. */
  method ReadPower(s: string, start: nat, m: real) returns (v: real)
    requires start <= |s|
    requires PowerHeld(s[start..])
    ensures v == Scaled(m, s[start..])
  {
    hide Exponent, ExponentHeld, PowTen, Drop;
    var i := start;
    v := m;
    if At(s, i) == 'e' || At(s, i) == 'E' {
      i := i + 1;
      assert s[start..][1..] == s[i..];
      if At(s, i) == '+' {
        i := i + 1;
        assert s[start..][2..] == s[i..];
        var count;
        i, count := ReadExponent(s, i);
        v := ScaleUp(v, count);
      }
      ghost var m' := v;
      if At(s, i) == '-' {
        assert s[i..][1..] == s[i + 1..];
        i := i + 1;
        var count;
        i, count := ReadExponent(s, i);
        v := ScaleDown(v, count);
      }
      assert Scaled(m, s[start..]) == v;
    }
  }

  /** Digits, point, fraction and exponent from a position. */
  method ReadUnsigned(str: string, start: nat) returns (v: real)
    requires start <= |str| && PowerHeld(Drop(AfterPoint(str[start..]), IsDigit))
    ensures v == Unsigned(str[start..])
  {
    hide Scaled, Decimal, Fraction, Take, Drop, PowerHeld;
    var i;
    i, v := ReadWhole(str, start);
    if At(str, i) == '.' {
      assert str[i..][1..] == str[i + 1..];
      i := i + 1;
    }
    assert str[i..] == AfterPoint(str[start..]);
    i, v := ReadFraction(str, i, v);
    v := ReadPower(str, i, v);
  }

  /** myatof. */
  method Myatof(str: string) returns (r: real)
    requires CounterHolds(str)
    ensures r == Parse(str)
  {
    hide Unsigned, Drop, AfterPoint, PowerHeld;
    var i := SkipSpaces(str);
    var negative := false;
    if At(str, i) == '-' {
      negative := true;
      assert str[i..][1..] == str[i + 1..];
      i := i + 1;
    }
    assert str[i..] == AfterSign(str);
    if !('0' <= At(str, i) <= '9') {
      return 0.0;
    }
    var v := ReadUnsigned(str, i);
    r := v * (if negative then -1.0 else 1.0);
  }
}
