/** Small arithmetic, counting maps, and natural numbers in decimal as Go formats and scans them. */
module Numbers {
  function Min(a: int, b: int): int { if a < b then a else b }
  function Max(a: int, b: int): int { if a > b then a else b }
  predicate AtMost(a: int, b: int) { a <= b }

  /** A count in a map, where a missing key counts zero. */
  function Lookup(m: map<string, nat>, key: string): nat {
    if key in m then m[key] else 0
  }

  const DIGITS := "0123456789"

  function Decimal(n: nat): (s: string)
    ensures s != ""
  {
    if n < 10 then [DIGITS[n]] else Decimal(n / 10) + [DIGITS[n % 10]]
  }

  predicate IsDigit(c: char) { '0' <= c <= '9' }

  function DigitValue(c: char): nat
    requires IsDigit(c)
  {
    (c - '0') as nat
  }

  /** Read digits into `acc` up to the first other character. */
  function ScanDigits(s: string, acc: nat): nat {
    if s == "" || !IsDigit(s[0]) then acc else ScanDigits(s[1..], acc * 10 + DigitValue(s[0]))
  }

  lemma DigitChars(d: nat)
    requires d < 10
    ensures IsDigit(DIGITS[d]) && DigitValue(DIGITS[d]) == d
  {
  }

  lemma {:induction false} DecimalDigits(n: nat)
    ensures forall i :: 0 <= i < |Decimal(n)| ==> IsDigit(Decimal(n)[i])
  {
    DigitChars(n % 10);
    if n >= 10 { DecimalDigits(n / 10); }
  }

  lemma {:induction false} ScanDigitsSplit(a: string, b: string, acc: nat)
    requires forall i :: 0 <= i < |a| ==> IsDigit(a[i])
    ensures ScanDigits(a + b, acc) == ScanDigits(b, ScanDigits(a, acc))
    decreases a
  {
    if a == "" {
      assert a + b == b;
    } else {
      assert (a + b)[1..] == a[1..] + b;
      ScanDigitsSplit(a[1..], b, acc * 10 + DigitValue(a[0]));
    }
  }

  lemma {:induction false} ScanDecimal(n: nat)
    ensures ScanDigits(Decimal(n), 0) == n
  {
    DigitChars(n % 10);
    var last := [DIGITS[n % 10]];
    assert last[1..] == "";
    if n >= 10 {
      ScanDecimal(n / 10);
      DecimalDigits(n / 10);
      ScanDigitsSplit(Decimal(n / 10), last, 0);
    }
  }

  ghost predicate AllDigits(s: string) {
    forall i :: 0 <= i < |s| ==> IsDigit(s[i])
  }

  lemma {:induction false} ScanAtLeast(s: string, acc: nat)
    requires AllDigits(s)
    ensures ScanDigits(s, acc) >= acc
    decreases s
  {
    if s != "" { ScanAtLeast(s[1..], acc * 10 + DigitValue(s[0])); }
  }

  lemma DecimalAppend(n: nat, c: char)
    requires n > 0 && IsDigit(c)
    ensures Decimal(n * 10 + DigitValue(c)) == Decimal(n) + [c]
  {
    var d := DigitValue(c);
    assert d < 10 && (n * 10 + d) / 10 == n && (n * 10 + d) % 10 == d;
    assert DIGITS[d] == c;
  }

  lemma ScanSnoc(s: string)
    requires s != "" && AllDigits(s)
    ensures var n := |s| - 1;
            ScanDigits(s, 0) == ScanDigits(s[..n], 0) * 10 + DigitValue(s[n])
  {
    var n := |s| - 1;
    assert s == s[..n] + [s[n]] && [s[n]][1..] == "";
    ScanDigitsSplit(s[..n], [s[n]], 0);
  }

  lemma DecimalOfDigit(c: char)
    requires IsDigit(c)
    ensures Decimal(DigitValue(c)) == [c]
  {
    assert DIGITS[DigitValue(c)] == c;
  }

  /** A text of digits that does not start with a zero is the decimal of the number it spells. */
  lemma {:induction false} DecimalOfDigits(s: string)
    requires s != "" && s[0] != '0' && AllDigits(s)
    ensures Decimal(ScanDigits(s, 0)) == s && ScanDigits(s, 0) > 0
    decreases |s|
  {
    var n := |s| - 1;
    ScanSnoc(s);
    assert s == s[..n] + [s[n]];
    if n == 0 {
      assert ScanDigits(s[..0], 0) == 0;
      DecimalOfDigit(s[0]);
    } else {
      DecimalOfDigits(s[..n]);
      DecimalAppend(ScanDigits(s[..n], 0), s[n]);
    }
  }
}
