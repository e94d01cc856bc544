// Decimal rendering of integers, as Rust's `{}` formatting writes them, and the
// reading back that `str::parse` does for unsigned numbers.
module Decimal {
  predicate IsDigit(c: char) {
    '0' <= c <= '9'
  }

  function DigitChar(d: nat): (c: char)
    requires d < 10
    ensures IsDigit(c) && DigitValue(c) == d
  {
    '0' + d as char
  }

  function DigitValue(c: char): (d: nat)
    requires IsDigit(c)
    ensures d < 10
  {
    (c - '0') as int
  }

  predicate AllDigits(s: string) {
    forall i | 0 <= i < |s| :: IsDigit(s[i])
  }

  function Digits(n: nat): (s: string)
    ensures |s| > 0
    ensures AllDigits(s)
  {
    if n < 10 then [DigitChar(n)] else Digits(n / 10) + [DigitChar(n % 10)]
  }

  // The number a digit string denotes; the empty string denotes 0 here, and
  // callers that must refuse it check for it themselves.
  function Value(s: string): nat
    requires AllDigits(s)
  {
    if s == "" then 0 else Value(s[..|s| - 1]) * 10 + DigitValue(s[|s| - 1])
  }

  // Signed rendering: a minus sign in front of the magnitude.
  function Render(n: int): (s: string)
    ensures |s| > 0
    ensures forall i | 0 <= i < |s| :: s[i] == '-' || IsDigit(s[i])
  {
    if n < 0 then "-" + Digits(-n) else Digits(n)
  }

  lemma {:induction false} ValueOfDigits(n: nat)
    ensures Value(Digits(n)) == n
  {
    if n < 10 {
      assert [DigitChar(n)][..0] == "";
    } else {
      ValueOfDigits(n / 10);
      var s := Digits(n);
      assert s[..|s| - 1] == Digits(n / 10);
    }
  }

  lemma RenderInjective(m: int, n: int)
    requires Render(m) == Render(n)
    ensures m == n
  {
    if m < 0 {
      assert Render(m)[0] == '-';
      assert Render(m)[1..] == Digits(-m);
    }
    if n < 0 {
      assert Render(n)[0] == '-';
      assert Render(n)[1..] == Digits(-n);
    }
    ValueOfDigits(if m < 0 then -m else m);
    ValueOfDigits(if n < 0 then -n else n);
  }

  // A shorter digit string never denotes a larger number.
  lemma {:induction false} PrefixValue(s: string, k: nat)
    requires AllDigits(s) && k <= |s|
    ensures Value(s[..k]) <= Value(s)
    decreases |s| - k
  {
    if k < |s| {
      PrefixValue(s, k + 1);
      assert s[..k + 1][..k] == s[..k];
    } else {
      assert s[..k] == s;
    }
  }

  // `{prefix}{name}:{number}` is read apart at its last colon, whatever the name.
  lemma LastColon(prefix: string, a: string, r: string, a': string, r': string)
    requires prefix + a + ":" + r == prefix + a' + ":" + r'
    requires ':' !in r && ':' !in r'
    ensures a == a' && r == r'
  {
    var s := prefix + a + ":" + r;
    var p, q := |prefix| + |a|, |prefix| + |a'|;
    assert s[p] == ':' && s[q] == ':';
    assert forall k | p < k < |s| :: s[k] == r[k - p - 1];
    assert forall k | q < k < |s| :: s[k] == r'[k - q - 1];
    assert s[|prefix|..p] == a && s[|prefix|..q] == a';
    assert s[p + 1..] == r && s[q + 1..] == r';
  }
}
