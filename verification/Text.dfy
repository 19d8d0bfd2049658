/** Decimal text and white space, as Rust's integer parser, `{:0w}` formatter
    and `trim` treat ASCII text. */
module Text {

  datatype Option<+T> = None | Some(value: T)

  predicate IsDigit(c: char) { '0' <= c <= '9' }

  predicate AllDigits(s: string) { forall i :: 0 <= i < |s| ==> IsDigit(s[i]) }

  function DigitValue(c: char): int { c as int - '0' as int }

  function DigitChar(d: int): (c: char)
    requires 0 <= d < 10
    ensures IsDigit(c) && DigitValue(c) == d
  {
    (d + '0' as int) as char
  }

  /** The number a run of digits spells. */
  function Value(s: string): int {
    if s == "" then 0 else 10 * Value(s[..|s| - 1]) + DigitValue(s[|s| - 1])
  }

  function Pow10(n: nat): (p: nat)
    ensures p > 0
  {
    if n == 0 then 1 else 10 * Pow10(n - 1)
  }

  lemma {:induction false} ValueBound(s: string)
    requires AllDigits(s)
    ensures 0 <= Value(s) < Pow10(|s|)
  {
    if s != "" { ValueBound(s[..|s| - 1]); }
  }

  /** `str::parse::<i64>`: an optional sign, then digits, in range. */
  function ParseInt(s: string): Option<int> {
    var signed := s != "" && (s[0] == '-' || s[0] == '+');
    var digits := if signed then s[1..] else s;
    if digits == "" || !AllDigits(digits) then None
    else
      var v := if signed && s[0] == '-' then -Value(digits) else Value(digits);
      if -0x8000_0000_0000_0000 <= v < 0x8000_0000_0000_0000 then Some(v) else None
  }

  /** What `parse::<i64>` accepts, and as what: digits with one sign or none, worth
      an i64. */
  lemma ParseIntIff(s: string, v: int)
    ensures ParseInt(s) == Some(v) <==>
            && -0x8000_0000_0000_0000 <= v <= 0x7FFF_FFFF_FFFF_FFFF
            && exists d :: d != "" && AllDigits(d) && ((s == d && v == Value(d)) || (s == "+" + d && v == Value(d))
                                                        || (s == "-" + d && v == -Value(d)))
  {
    hide Value;
    if ParseInt(s) == Some(v) {
      var d := if s[0] == '-' || s[0] == '+' then s[1..] else s;
      assert s == d || s == [s[0]] + d;
      assert d != "" && AllDigits(d);
    }
    if d :| d != "" && AllDigits(d) && ((s == d && v == Value(d)) || (s == "+" + d && v == Value(d)) || (s == "-" + d && v == -Value(d))) {
      if s == d { assert IsDigit(s[0]); } else { assert s[1..] == d; }
    }
  }

  /** `n` in exactly `w` digits. */
  function Pad(n: nat, w: nat): (s: string)
    ensures |s| == w && AllDigits(s)
  {
    if w == 0 then "" else Pad(n / 10, w - 1) + [DigitChar(n % 10)]
  }

  lemma {:induction false} ValueOfPad(n: nat, w: nat)
    requires n < Pow10(w)
    ensures Value(Pad(n, w)) == n
  {
    if w > 0 {
      Tenth(n, Pow10(w - 1));
      ValueOfPad(n / 10, w - 1);
      var s := Pad(n, w);
      assert s[..w - 1] == Pad(n / 10, w - 1) && s[w - 1] == DigitChar(n % 10);
      assert Value(s) == 10 * Value(s[..w - 1]) + n % 10;
    }
  }

  /** Digits written one after the other. */
  lemma {:induction false} ValueOfConcat(a: string, b: string)
    ensures Value(a + b) == Value(a) * Pow10(|b|) + Value(b)
  {
    if b == "" {
      assert a + b == a;
    } else {
      var n := |b| - 1;
      ValueOfConcat(a, b[..n]);
      assert (a + b)[..|a| + n] == a + b[..n] && (a + b)[|a| + n] == b[n];
      TenTimes(Value(a), Pow10(n), Value(b[..n]));
    }
  }

  lemma TenTimes(x: int, p: int, y: int)
    ensures 10 * (x * p + y) == x * (10 * p) + 10 * y
  {
  }

  lemma Quotient(q: int, r: int, d: int)
    requires 0 <= r < d
    ensures (q * d + r) / d == q
  {
    var x := q * d + r;
    assert x == x / d * d + x % d;
    if x / d < q { Steeper(x / d + 1, q, d); }
    if q < x / d { Steeper(q + 1, x / d, d); }
  }

  lemma Steeper(a: int, b: int, d: int)
    requires a <= b && d > 0
    ensures a * d <= b * d && (a - 1) * d == a * d - d
  {
  }

  lemma Tenth(n: nat, p: nat)
    ensures n < 10 * p ==> n / 10 < p
    ensures n == 10 * (n / 10) + n % 10
  {
  }

  /** `n` with no leading zero. */
  function Decimal(n: nat): (s: string)
    ensures |s| > 0 && AllDigits(s)
  {
    if n < 10 then [DigitChar(n)] else Decimal(n / 10) + [DigitChar(n % 10)]
  }

  function Zeros(k: nat): (s: string)
    ensures |s| == k && AllDigits(s)
  {
    seq(k, i => '0')
  }

  /** `{:0w}` of a natural number: at least `w` digits. */
  function ZeroFill(n: nat, w: nat): (s: string)
    ensures |s| >= w && AllDigits(s)
  {
    var d := Decimal(n);
    if |d| >= w then d else Zeros(w - |d|) + d
  }

  lemma {:induction false} ZeroFillIsPad(n: nat, w: nat)
    requires w > 0 && n < Pow10(w)
    ensures ZeroFill(n, w) == Pad(n, w)
  {
    if n < 10 {
      PadZeros(w - 1);
      assert Pad(n, w) == Pad(0, w - 1) + [DigitChar(n)];
    } else {
      assert w > 1;
      ZeroFillIsPad(n / 10, w - 1);
      assert ZeroFill(n, w) == ZeroFill(n / 10, w - 1) + [DigitChar(n % 10)];
    }
  }

  lemma {:induction false} PadZeros(w: nat)
    ensures Pad(0, w) == Zeros(w)
  {
    if w > 0 { PadZeros(w - 1); }
  }

  lemma {:induction false} DecimalLength(n: nat, w: nat)
    requires Pow10(w) <= n
    ensures |Decimal(n)| > w
  {
    if w > 0 { DecimalLength(n / 10, w - 1); }
  }

  lemma {:induction false} ValueOfDecimal(n: nat)
    ensures Value(Decimal(n)) == n
  {
    var s := Decimal(n);
    if n < 10 {
      assert s[..0] == "";
    } else {
      ValueOfDecimal(n / 10);
      assert s[..|s| - 1] == Decimal(n / 10);
    }
  }

  lemma ParsePad(n: nat, w: nat)
    requires 0 < w <= 9 && n < Pow10(w)
    ensures ParseInt(Pad(n, w)) == Some(n)
  {
    var s := Pad(n, w);
    ValueOfPad(n, w);
    assert IsDigit(s[0]);
    Pow10Nine(w);
  }

  lemma Pow10Nine(w: nat)
    requires w <= 9
    ensures Pow10(w) <= 1_000_000_000
  {
    assert Pow10(0) == 1 && Pow10(1) == 10 && Pow10(2) == 100 && Pow10(3) == 1000;
    assert Pow10(4) == 10_000 && Pow10(5) == 100_000 && Pow10(6) == 1_000_000;
    assert Pow10(7) == 10_000_000 && Pow10(8) == 100_000_000 && Pow10(9) == 1_000_000_000;
  }

  function Min(a: nat, b: nat): nat { if a < b then a else b }

  /** `char::from_u32` answers: a Unicode scalar value. */
  predicate IsScalar(v: int) { 0 <= v < 0xD800 || 0xE000 <= v < 0x11_0000 }

  predicate IsAlpha(c: char) { 'a' <= c <= 'z' || 'A' <= c <= 'Z' }

  /** How many letters a text starts with. */
  function AlphaRun(s: string): (n: nat)
    ensures n <= |s|
  {
    if s != "" && IsAlpha(s[0]) then 1 + AlphaRun(s[1..]) else 0
  }

  /** `char::is_whitespace`: the characters of Unicode's White_Space property. */
  predicate IsSpace(c: char) {
    var x := c as int;
    || c == ' ' || '\t' <= c <= '\r' || x == 0x85 || x == 0xA0 || x == 0x1680 || 0x2000 <= x <= 0x200A
    || x == 0x2028 || x == 0x2029 || x == 0x202F || x == 0x205F || x == 0x3000
  }

  function TrimStart(s: string): string {
    if s != "" && IsSpace(s[0]) then TrimStart(s[1..]) else s
  }

  function TrimEnd(s: string): string {
    if s != "" && IsSpace(s[|s| - 1]) then TrimEnd(s[..|s| - 1]) else s
  }

  function Trim(s: string): string { TrimEnd(TrimStart(s)) }

  /** How many digits `s` starts with. */
  function DigitRun(s: string): (n: nat)
    ensures n <= |s| && AllDigits(s[..n]) && (n < |s| ==> !IsDigit(s[n]))
  {
    if s != "" && IsDigit(s[0]) then
      var n := DigitRun(s[1..]);
      assert s[..n + 1] == [s[0]] + s[1..][..n];
      n + 1
    else 0
  }

  lemma {:induction false} DigitRunOf(digits: string, rest: string)
    requires AllDigits(digits) && (rest == "" || !IsDigit(rest[0]))
    ensures DigitRun(digits + rest) == |digits|
  {
    if digits == "" {
      assert digits + rest == rest;
    } else {
      assert (digits + rest)[1..] == digits[1..] + rest;
      DigitRunOf(digits[1..], rest);
    }
  }
}
