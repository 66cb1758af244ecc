/** The two hand-written integer printers, over 64-bit integers and a 20-byte buffer. */
module Decimal {

  const MIN64 := -0x8000_0000_0000_0000
  const MAX64 := 0x7fff_ffff_ffff_ffff
  const BUFFER := 20

  type Int64 = n: int | MIN64 <= n <= MAX64

  // Two's complement negation: the minimum is its own negation.
  function Negate(n: Int64): Int64 {
    if n == MIN64 then n else -n
  }

  function Digit(d: int): char
    requires 0 <= d < 10
  {
    '0' + d as char
  }

  function Digits(n: nat): (s: string)
    ensures |s| >= 1
  {
    if n < 10 then [Digit(n)] else Digits(n / 10) + [Digit(n % 10)]
  }

  function Pow10(k: nat): nat {
    if k == 0 then 1 else 10 * Pow10(k - 1)
  }

  // What the middleware's printer returns; for the minimum, a bare minus sign.
  function Signed(n: Int64): string {
    if n == MIN64 then "-" else if n < 0 then "-" + Digits(-n) else Digits(n)
  }

  // What the terminal's printer returns: nothing for negative numbers.
  function Unsigned(n: Int64): string {
    if n < 0 then "" else Digits(n)
  }

  // The digit loop of both printers: fills the buffer downwards from its end.
  method FillDigits(n: Int64, buf: array<char>) returns (i: nat)
    requires buf.Length == BUFFER
    modifies buf
    ensures 1 <= i <= BUFFER
    ensures buf[i..] == if n <= 0 then "" else Digits(n)
  {
    i := BUFFER;
    var rest := n;
    Pow10Of19();
    while rest > 0
      invariant 1 <= i <= BUFFER && rest <= n
      invariant rest > 0 ==> rest < Pow10(i - 1)
      invariant n <= 0 ==> rest == n && i == BUFFER
      invariant n > 0 ==> rest >= 0 && (if rest > 0 then Digits(rest) else "") + buf[i..] == Digits(n)
      decreases rest
    {
      ghost var before := buf[i..];
      i := i - 1;
      buf[i] := Digit(rest % 10);
      assert buf[i..] == [Digit(rest % 10)] + before;
      assert rest >= 10 ==> Digits(rest) == Digits(rest / 10) + [Digit(rest % 10)];
      rest := rest / 10;
    }
  }

  lemma Pow10Of19()
    ensures Pow10(19) == 10_000_000_000_000_000_000
  {
    assert Pow10(4) == 10_000;
    assert Pow10(8) == 100_000_000;
    assert Pow10(12) == 1_000_000_000_000;
    assert Pow10(16) == 10_000_000_000_000_000;
  }

  method MiddlewareItoa(n: Int64) returns (s: string)
    ensures s == Signed(n)
  {
    if n == 0 { return "0"; }
    var neg := n < 0;
    var m := if neg then Negate(n) else n;
    var buf := new char[BUFFER];
    var i := FillDigits(m, buf);
    if neg {
      ghost var digits := buf[i..];
      i := i - 1;
      buf[i] := '-';
      assert buf[i..] == ['-'] + digits;
    }
    return buf[i..];
  }

  method TerminalItoa(n: Int64) returns (s: string)
    ensures s == Unsigned(n)
  {
    if n == 0 { return "0"; }
    var buf := new char[BUFFER];
    var i := FillDigits(n, buf);
    return buf[i..];
  }

  // ------------------------------------------------------------------ reading back

  predicate IsDigit(c: char) { '0' <= c <= '9' }

  function Value(s: string): int
    requires forall c <- s :: IsDigit(c)
  {
    if s == "" then 0 else 10 * Value(s[..|s| - 1]) + (s[|s| - 1] as int - '0' as int)
  }

  datatype Parsed = Bad | Number(value: int)

  // Reads an optional minus sign and one or more digits.
  function Parse(s: string): Parsed {
    var digits := if s != "" && s[0] == '-' then s[1..] else s;
    if digits == "" || exists c <- digits :: !IsDigit(c) then Bad
    else Number(if digits == s then Value(digits) else -Value(digits))
  }

  lemma {:induction false} DigitsReadBack(n: nat)
    ensures forall c <- Digits(n) :: IsDigit(c)
    ensures Value(Digits(n)) == n
    ensures Digits(n)[0] == '0' ==> n == 0
  {
    if n >= 10 {
      DigitsReadBack(n / 10);
      assert Digits(n)[..|Digits(n)| - 1] == Digits(n / 10);
    } else {
      assert Digits(n)[..0] == "";
    }
  }

  // The printed form reads back as the number for every number but the 64-bit minimum.
  lemma SignedReadsBack(n: Int64)
    ensures Parse(Signed(n)) == Number(n) <==> n != -9_223_372_036_854_775_808
    ensures n == -9_223_372_036_854_775_808 ==> Signed(n) == "-"
  {
    if n == MIN64 {
      assert "-"[1..] == "";
    } else {
      var m := if n < 0 then -n else n;
      DigitsReadBack(m);
      if n < 0 { assert Signed(n)[1..] == Digits(m); } else { assert Digits(m)[0] in Digits(m); }
    }
  }

  // No two numbers print alike, the minimum included, and no printed number starts with a zero
  // but zero itself.
  lemma SignedIsInjective(n: Int64, m: Int64)
    ensures Signed(n) == Signed(m) ==> n == m
    ensures Signed(n)[0] == '0' ==> Signed(n) == "0"
    ensures |Signed(n)| >= 2 && Signed(n)[0] == '-' ==> Signed(n)[1] != '0'
  {
    SignedReadsBack(n);
    SignedReadsBack(m);
    if n != MIN64 {
      var digits := Digits(if n < 0 then -n else n);
      DigitsReadBack(if n < 0 then -n else n);
      assert digits[0] in digits;
      assert Signed(n) == if n < 0 then "-" + digits else digits;
    }
  }

  // The two printers agree exactly on the numbers that are not negative.
  lemma PrintersAgree(n: Int64)
    ensures Unsigned(n) == Signed(n) <==> n >= 0
    ensures n < 0 ==> Unsigned(n) == ""
  {}
}
