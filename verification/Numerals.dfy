/** Numerals in base ten and sixteen: `str(n)`, `hex` digits and `int(text, base)`. */
module Numerals {
  import opened Options

  /** Upper-case digits, as in the nmap database. */
  function DigitChar(d: nat): (c: char)
    requires d < 16
    ensures IsDigit(c, d + 1)
  {
    if d < 10 then '0' + d as char else 'A' + (d - 10) as char
  }

  /** A digit of the base, in either case: what `int(text, base)` takes. */
  predicate IsDigit(c: char, base: nat) {
    DigitValue(c) < base
  }

  function DigitValue(c: char): nat {
    if '0' <= c <= '9' then (c - '0') as nat
    else if 'A' <= c <= 'F' then (c - 'A') as nat + 10
    else if 'a' <= c <= 'f' then (c - 'a') as nat + 10
    else 99
  }

  function Numeral(n: nat, base: nat): (s: string)
    requires base == 10 || base == 16
    ensures |s| > 0 && forall c | c in s :: IsDigit(c, base)
    decreases n
  {
    if n < base then [DigitChar(n)] else Numeral(n / base, base) + [DigitChar(n % base)]
  }

  /** `str(n)`. */
  function Decimal(n: nat): string { Numeral(n, 10) }

  /** `int(text, base)`; None is ValueError.  Signs, blanks and prefixes do not occur here. */
  function Parse(s: string, base: nat): Option<nat>
    requires base == 10 || base == 16
  {
    if |s| > 0 && forall c | c in s :: IsDigit(c, base) then Some(Value(s, base)) else None
  }

  function Value(s: string, base: nat): nat {
    if |s| == 0 then 0 else Value(s[..|s| - 1], base) * base + DigitValue(s[|s| - 1])
  }

  lemma ValueSnoc(s: string, c: char, base: nat)
    ensures Value(s + [c], base) == Value(s, base) * base + DigitValue(c)
  {
    assert (s + [c])[..|s|] == s;
  }

  lemma Recompose(n: nat, base: nat)
    requires base == 10 || base == 16
    ensures n / base * base + n % base == n
  {
  }

  lemma NumeralStep(n: nat, base: nat)
    requires (base == 10 || base == 16) && n >= base
    ensures Value(Numeral(n, base), base) == Value(Numeral(n / base, base), base) * base + n % base
  {
    ValueSnoc(Numeral(n / base, base), DigitChar(n % base), base);
  }

  lemma {:induction false} ValueNumeral(n: nat, base: nat)
    requires base == 10 || base == 16
    ensures Value(Numeral(n, base), base) == n
    decreases n
  {
    if n >= base {
      hide Value, Numeral;
      NumeralStep(n, base);
      ValueNumeral(n / base, base);
      Recompose(n, base);
    } else {
      OneDigit(n, base);
    }
  }

  lemma OneDigit(n: nat, base: nat)
    requires (base == 10 || base == 16) && n < base
    ensures Value(Numeral(n, base), base) == n
  {
    var s := Numeral(n, base);
    assert s[..|s| - 1] == "";
  }

  lemma ParseNumeral(n: nat, base: nat)
    requires base == 10 || base == 16
    ensures Parse(Numeral(n, base), base) == Some(n)
  {
    ValueNumeral(n, base);
  }

  lemma DecimalInjective(m: nat, n: nat)
    ensures Decimal(m) == Decimal(n) ==> m == n
  {
    ValueNumeral(m, 10);
    ValueNumeral(n, 10);
  }

  /** Hexadecimal numbers of the nmap database, in either case. */
  lemma HexExample()
    ensures Parse("5B4", 16) == Some(1460) && Parse("5b4", 16) == Some(1460) && Numeral(1460, 16) == "5B4"
  {
    var none := "";
    assert Value(none, 16) == 0;
    ValueSnoc(none, '5', 16);
    ValueSnoc("5", 'B', 16);
    ValueSnoc("5B", '4', 16);
    ValueSnoc("5", 'b', 16);
    ValueSnoc("5b", '4', 16);
    assert none + "5" == "5" && "5" + "B" == "5B" && "5B" + "4" == "5B4" && "5" + "b" == "5b" && "5b" + "4" == "5b4";
    assert Numeral(5, 16) == "5" && Numeral(91, 16) == Numeral(5, 16) + "B";
    assert Numeral(1460, 16) == Numeral(91, 16) + "4";
  }
}
