/**
  Tier names (internal/initcfg/helpers.go): printing a tier as "layer-N" and
  reading N back with Go's 64-bit int.
*/
module Tiers {
  import opened Orders

  const PREFIX := "layer-"
  const MAX_INT := 0x7FFF_FFFF_FFFF_FFFF

  /** Decimal digits without a sign: fmt's %d of a natural number. */
  function Digits(n: nat): (s: string)
    ensures |s| >= 1 && forall i :: 0 <= i < |s| ==> '0' <= s[i] <= '9'
  {
    if n < 10 then [DigitChar(n)] else Digits(n / 10) + [DigitChar(n % 10)]
  }

  function DigitChar(d: nat): (c: char)
    requires d < 10
    ensures '0' <= c <= '9' && DigitValue(c) == d
  {
    ('0' as int + d) as char
  }

  function DigitValue(c: char): int {
    c as int - '0' as int
  }

  function TierName(n: nat): string {
    PREFIX + Digits(n)
  }

  /** Two's complement wrap-around of Go's int on a 64-bit machine. */
  function Wrap(x: int): int {
    (x + 0x8000_0000_0000_0000) % 0x1_0000_0000_0000_0000 - 0x8000_0000_0000_0000
  }

  predicate AllDigits(s: string) {
    forall i :: 0 <= i < |s| ==> '0' <= s[i] <= '9'
  }

  function Value(s: string): int {
    if |s| == 0 then 0 else Wrap(Value(s[..|s| - 1]) * 10 + DigitValue(s[|s| - 1]))
  }

  /** The number layerTierNum reads; 0 for a name that is no tier. */
  function TierNum(name: string): int {
    if |name| >= |PREFIX| && name[..|PREFIX|] == PREFIX && AllDigits(name[|PREFIX|..])
    then Value(name[|PREFIX|..])
    else 0
  }

  method LayerTierNum(name: string) returns (n: int)
    ensures n == TierNum(name)
  {
    if |name| < |PREFIX| || name[..|PREFIX|] != PREFIX {
      return 0;
    }
    var digits := name[|PREFIX|..];
    n := 0;
    for i := 0 to |digits|
      invariant AllDigits(digits[..i]) && n == Value(digits[..i])
    {
      var c := digits[i];
      if c < '0' || c > '9' {
        return 0;
      }
      assert digits[..i + 1][..i] == digits[..i];
      n := Wrap(n * 10 + DigitValue(c));
    }
    assert digits[..|digits|] == digits;
  }

  /** The number written by digits, of any size. */
  function Decimal(s: string): nat
    requires AllDigits(s)
  {
    if |s| == 0 then 0 else Decimal(s[..|s| - 1]) * 10 + DigitValue(s[|s| - 1])
  }

  lemma WrapStep(x: int, d: int)
    ensures Wrap(Wrap(x) * 10 + d) == Wrap(x * 10 + d)
  {
    var m := 0x1_0000_0000_0000_0000;
    var q := (x + 0x8000_0000_0000_0000) / m;
    assert Wrap(x) == x - q * m;
    WrapPeriod(x * 10 + d, -10 * q);
  }

  lemma WrapPeriod(x: int, k: int)
    ensures Wrap(x + k * 0x1_0000_0000_0000_0000) == Wrap(x)
  {
  }

  /** Wrapping at every digit is wrapping once: what is read is the number after the prefix, as far as 64
      bits hold it, and 0 of any name that is no prefix and digits. */
  lemma {:induction false} TierNumExactly(name: string)
    ensures TierNum(name) ==
            if PREFIX <= name && AllDigits(name[|PREFIX|..]) then Wrap(Decimal(name[|PREFIX|..])) else 0
  {
    if PREFIX <= name && AllDigits(name[|PREFIX|..]) { ValueIsDecimal(name[|PREFIX|..]); }
  }

  lemma {:induction false} ValueIsDecimal(s: string)
    requires AllDigits(s)
    ensures Value(s) == Wrap(Decimal(s))
  {
    hide Wrap;
    if |s| == 0 {
      WrapSmall(0);
    } else {
      ValueIsDecimal(s[..|s| - 1]);
      WrapStep(Decimal(s[..|s| - 1]), DigitValue(s[|s| - 1]));
    }
  }

  lemma {:induction false} ValueOfDigits(n: nat)
    requires n <= MAX_INT
    ensures Value(Digits(n)) == n
  {
    hide Value, Wrap, DigitChar;
    WrapSmall(n);
    if n < 10 {
      ValueSnoc("", n);
      ValueOfNothing();
      assert "" + [DigitChar(n)] == [DigitChar(n)];
    } else {
      ValueOfDigits(n / 10);
      ValueSnoc(Digits(n / 10), n % 10);
    }
  }

  lemma WrapSmall(x: nat)
    requires x <= MAX_INT
    ensures Wrap(x) == x
  {
  }

  lemma ValueOfNothing()
    ensures Value("") == 0
  {
  }

  lemma ValueSnoc(s: string, d: nat)
    requires d < 10
    ensures Value(s + [DigitChar(d)]) == Wrap(Value(s) * 10 + d)
  {
    assert (s + [DigitChar(d)])[..|s|] == s;
  }

  /** Reading a printed tier gives its number back exactly up to Go's largest int. */
  lemma TierRoundTrip(n: nat)
    ensures TierNum(TierName(n)) == n <==> n <= MAX_INT
  {
    assert TierName(n)[..|PREFIX|] == PREFIX && TierName(n)[|PREFIX|..] == Digits(n);
    if n <= MAX_INT { ValueOfDigits(n); }
  }

  /** Distinct tiers have distinct names, of any size. */
  lemma {:induction false} DigitsInjective(m: nat, n: nat)
    requires Digits(m) == Digits(n)
    ensures m == n
  {
    if m >= 10 && n >= 10 {
      var s, t := Digits(m), Digits(n);
      assert s[..|s| - 1] == Digits(m / 10) && t[..|t| - 1] == Digits(n / 10);
      assert s[|s| - 1] == DigitChar(m % 10) && t[|t| - 1] == DigitChar(n % 10);
      DigitsInjective(m / 10, n / 10);
    }
  }

  lemma TierNameInjective(m: nat, n: nat)
    requires TierName(m) == TierName(n)
    ensures m == n
  {
    assert TierName(m)[|PREFIX|..] == Digits(m) && TierName(n)[|PREFIX|..] == Digits(n);
    DigitsInjective(m, n);
  }

  /** layerTierNum first, then the name: how topoLayerList sorts. */
  predicate TierLe(a: string, b: string) {
    TierNum(a) < TierNum(b) || (TierNum(a) == TierNum(b) && StrLe(a, b))
  }

  lemma {:induction false} TierLeTotalOrder()
    ensures TotalOrder(TierLe)
  {
    StrLeTotalOrder();
  }
}
