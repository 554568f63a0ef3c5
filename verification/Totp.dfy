/** Time-based one-time passwords: RFC 4226 truncation of a 20-byte MAC over a 30-second step
    (RFC 6238), checked in a window of one step either way and only beyond the last step used. */
module Totp {
  import opened Wrappers

  type Byte = x: nat | x < 256
  type Secret = seq<Byte>
  type Digest = d: seq<Byte> | |d| == 20 witness seq(20, _ => 0)

  const PERIOD := 30
  const MODULUS := 1_000_000

  /** Integer division of the source: towards zero. */
  function TruncDiv(n: int, d: int): int
    requires d > 0
  {
    if n >= 0 then n / d else -((-n) / d)
  }

  function ClockStep(now: int): int {
    TruncDiv(now, PERIOD)
  }

  /** Steps are thirty seconds long; only the one around the epoch, where division cuts towards zero,
      is twice that. */
  lemma StepsAreThirtySeconds(now: int)
    ensures now >= 0 ==> 30 * ClockStep(now) <= now < 30 * ClockStep(now) + 30
    ensures now < 0 ==> 30 * ClockStep(now) - 30 < now <= 30 * ClockStep(now)
  {
  }

  function BigEndian(s: seq<Byte>): nat {
    if s == [] then 0 else BigEndian(s[..|s| - 1]) * 256 + s[|s| - 1]
  }

  /** Section 5.3 of RFC 4226. */
  function Truncated(d: Digest): nat {
    var index := d[19] % 16;
    BigEndian(d[index..index + 4]) % 0x8000_0000 % MODULUS
  }

  lemma {:induction false} BigEndian4(s: seq<Byte>)
    requires |s| == 4
    ensures var b0: int, b1: int, b2: int, b3: int := s[0], s[1], s[2], s[3];
      BigEndian(s) == b0 * 0x100_0000 + b1 * 0x1_0000 + b2 * 0x100 + b3
  {
    var b0: int, b1: int, b2: int := s[0], s[1], s[2];
    assert s[..3][..2] == s[..2] && s[..2][..1] == s[..1] && s[..1][..0] == [];
    assert BigEndian(s[..1]) == b0 && BigEndian(s[..2]) == b0 * 256 + b1;
    assert BigEndian(s[..3]) == (b0 * 256 + b1) * 256 + b2;
  }

  lemma TopBitDrops(b0: int, rest: nat)
    requires 0 <= b0 < 256 && rest < 0x100_0000
    ensures (b0 * 0x100_0000 + rest) % 0x8000_0000 == b0 % 0x80 * 0x100_0000 + rest
  {
    var low := b0 % 0x80 * 0x100_0000 + rest;
    assert b0 * 0x100_0000 + rest == b0 / 0x80 * 0x8000_0000 + low;
    assert 0 <= low < 0x8000_0000;
  }

  /** The same value as section 5.3 writes it: the top bit of the first byte is masked away. */
  lemma TruncatedByBytes(d: Digest)
    ensures var i := d[19] % 16;
      var b0: int, b1: int, b2: int, b3: int := d[i], d[i + 1], d[i + 2], d[i + 3];
      Truncated(d) == (b0 % 0x80 * 0x100_0000 + (b1 * 0x1_0000 + b2 * 0x100 + b3)) % 1_000_000
  {
    var i := d[19] % 16;
    BigEndian4(d[i..i + 4]);
    var b0: int, b1: int, b2: int, b3: int := d[i], d[i + 1], d[i + 2], d[i + 3];
    TopBitDrops(b0, b1 * 0x1_0000 + b2 * 0x100 + b3);
  }

  predicate IsDigit(c: char) {
    '0' <= c <= '9'
  }

  predicate ValidCode(code: string) {
    |code| == 6 && forall c :: c in code ==> IsDigit(c)
  }

  function Decimal(digits: string): nat
    requires forall c :: c in digits ==> IsDigit(c)
  {
    if digits == [] then 0
    else
      assert IsDigit(digits[|digits| - 1]);
      Decimal(digits[..|digits| - 1]) * 10 + (digits[|digits| - 1] as int - '0' as int)
  }

  /** The decimal spelling of a value in a fixed number of digits. */
  function Spelled(value: nat, digits: nat): (s: string)
    ensures |s| == digits && forall c :: c in s ==> IsDigit(c)
  {
    if digits == 0 then []
    else Spelled(value / 10, digits - 1) + [(value % 10 + '0' as int) as char]
  }

  function Pow10(n: nat): (p: nat)
    ensures p > 0
  {
    if n == 0 then 1 else 10 * Pow10(n - 1)
  }

  lemma OneDigitLess(value: nat, power: nat)
    requires value < 10 * power
    ensures value / 10 < power && value / 10 * 10 + value % 10 == value
  {
  }

  lemma {:induction false} SpelledReadsBack(value: nat, digits: nat)
    requires value < Pow10(digits)
    ensures Decimal(Spelled(value, digits)) == value
  {
    if digits > 0 {
      OneDigitLess(value, Pow10(digits - 1));
      SpelledReadsBack(value / 10, digits - 1);
      var s, last := Spelled(value, digits), (value % 10 + '0' as int) as char;
      assert s[..|s| - 1] == Spelled(value / 10, digits - 1) && s[|s| - 1] == last;
    }
  }

  lemma {:induction false} DecimalSpells(s: string)
    requires forall c :: c in s ==> IsDigit(c)
    ensures Decimal(s) < Pow10(|s|) && Spelled(Decimal(s), |s|) == s
  {
    if s != [] {
      DecimalSpells(s[..|s| - 1]);
      var d := s[|s| - 1];
      assert IsDigit(d);
      assert s == s[..|s| - 1] + [d];
    }
  }

  /** Every truncated value is spelled by exactly one acceptable code. */
  lemma OneCodePerValue(value: nat, code: string)
    requires value < 1_000_000
    ensures ValidCode(code) && Decimal(code) == value <==> code == Spelled(value, 6)
  {
    assert Pow10(6) == MODULUS by {
      assert Pow10(3) == 1000;
    }
    SpelledReadsBack(value, 6);
    if ValidCode(code) {
      DecimalSpells(code);
    }
  }

  predicate Fits(mac: (Secret, int) -> Digest, secret: Secret, code: string, step: int) {
    ValidCode(code) && Truncated(mac(secret, step)) == Decimal(code)
  }

  /** The steps the window offers beyond the last used one. */
  predicate Offered(now: int, lastUsed: int, step: int) {
    ClockStep(now) - 1 <= step <= ClockStep(now) + 1 && step > lastUsed
  }

  /** The earliest offered step that the code fits. */
  function Accepts(mac: (Secret, int) -> Digest, secret: Secret, code: string, now: int, lastUsed: int)
    : (r: Option<int>)
    ensures r.None? <==> forall step :: Offered(now, lastUsed, step) ==> !Fits(mac, secret, code, step)
    ensures r.Some? ==>
      && Offered(now, lastUsed, r.value) && Fits(mac, secret, code, r.value)
      && forall step :: Offered(now, lastUsed, step) && step < r.value ==> !Fits(mac, secret, code, step)
  {
    var c := ClockStep(now);
    if c - 1 > lastUsed && Fits(mac, secret, code, c - 1) then Some(c - 1)
    else if c > lastUsed && Fits(mac, secret, code, c) then Some(c)
    else if c + 1 > lastUsed && Fits(mac, secret, code, c + 1) then Some(c + 1)
    else None
  }

  method verifyTOTP(mac: (Secret, int) -> Digest, secret: Secret, code: string, now: int, lastUsed: int)
    returns (accepted: Option<int>)
    ensures accepted == Accepts(mac, secret, code, now, lastUsed)
  {
    if |code| != 6 || exists c :: c in code && !IsDigit(c) {
      return None;
    }
    var wanted := Decimal(code);
    var current := TruncDiv(now, PERIOD);
    var offset := -1;
    while offset <= 1
      invariant -1 <= offset <= 2
      invariant forall step :: Offered(now, lastUsed, step) && step < current + offset ==>
        !Fits(mac, secret, code, step)
    {
      var step := current + offset;
      if step > lastUsed {
        var value := Truncated(mac(secret, step));
        if value == wanted {
          return Some(step);
        }
      }
      offset := offset + 1;
    }
    accepted := None;
  }
}
