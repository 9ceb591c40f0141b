/** Small helpers shared by the whole model: an option type, Go's integer
    division (truncating toward zero), unsigned 64-bit wrap-around, string
    prefixes and decimal formatting as Go's `%d` produces it. */
module Util {

  datatype Option<+T> = None | Some(value: T)

  function Min(a: int, b: int): (m: int)
    ensures m <= a && m <= b && (m == a || m == b)
  {
    if a <= b then a else b
  }

  function Max(a: int, b: int): (m: int)
    ensures m >= a && m >= b && (m == a || m == b)
  {
    if a >= b then a else b
  }

  function Abs(a: int): (r: nat)
    ensures r == a || r == -a
  {
    if a < 0 then -a else a
  }

  /** Go's `a / b` on signed integers: the quotient truncated toward zero. */
  function Quot(a: int, b: int): (q: int)
    requires b != 0
    ensures Abs(q) == Abs(a) / Abs(b)
    ensures q < 0 <==> Abs(a) >= Abs(b) && (a < 0) != (b < 0)
  {
    DivIsZero(Abs(a), Abs(b));
    if (a < 0) == (b < 0) then Abs(a) / Abs(b) else -(Abs(a) / Abs(b))
  }

  lemma DivIsZero(x: nat, y: nat)
    requires y > 0
    ensures x / y == 0 <==> x < y
  {
    var q, r := x / y, x % y;
    assert x == y * q + r && 0 <= r < y;
    if q > 0 {
      assert y * q == y * (q - 1) + y;
      assert y * (q - 1) >= 0;
    }
  }

  /** Quotient and remainder are determined by a decomposition. */
  lemma DivMod(a: int, b: int, q: int, r: int)
    requires b > 0 && a == q * b + r && 0 <= r < b
    ensures a / b == q && a % b == r
  {
    assert (q - a / b) * b == a % b - r;
    MulSign(q - a / b, b);
  }

  lemma MulSign(d: int, b: int)
    requires b > 0
    ensures d >= 1 ==> d * b >= b
    ensures d <= -1 ==> d * b <= -b
  {
    if d >= 1 {
      assert d * b == (d - 1) * b + b;
    } else if d <= -1 {
      assert d * b == (d + 1) * b - b;
    }
  }

  /** Go's `a % b`: the remainder that goes with `Quot`, carrying the sign of `a`. */
  function Rem(a: int, b: int): (r: int)
    requires b != 0
    ensures Quot(a, b) * b + r == a
    ensures Abs(r) == Abs(a) % Abs(b)
    ensures r == 0 || (r > 0 <==> a > 0)
  {
    if a < 0 then -(Abs(a) % Abs(b)) else Abs(a) % Abs(b)
  }

  const Uint64Modulus: int := 0x1_0000_0000_0000_0000

  predicate IsUint64(n: int) { 0 <= n < Uint64Modulus }

  /** Go's `a - b` on `uint64`: wraps around. */
  function WrapSub(a: int, b: int): (r: int)
    requires IsUint64(a) && IsUint64(b)
    ensures IsUint64(r)
    ensures a >= b ==> r == a - b
    ensures a < b ==> r == a - b + Uint64Modulus
  {
    (a - b) % Uint64Modulus
  }

  /** Go's `a + b` on `uint64`: wraps around. */
  function WrapAdd(a: int, b: int): (r: int)
    requires IsUint64(a) && IsUint64(b)
    ensures IsUint64(r)
    ensures a + b < Uint64Modulus ==> r == a + b
    ensures a + b >= Uint64Modulus ==> r == a + b - Uint64Modulus
  {
    (a + b) % Uint64Modulus
  }

  /** Go's `strings.HasPrefix`. */
  predicate HasPrefix(s: string, prefix: string)
  {
    |prefix| <= |s| && s[..|prefix|] == prefix
  }

  function DigitChar(d: int): (c: char)
    requires 0 <= d < 10
    ensures '0' <= c <= '9' && c as int - '0' as int == d
  {
    (d + '0' as int) as char
  }

  /** The decimal digits of a natural number, most significant first. */
  function Digits(n: nat): (s: string)
    ensures |s| > 0
    ensures forall i :: 0 <= i < |s| ==> '0' <= s[i] <= '9'
    ensures n > 0 ==> s[0] != '0'
    decreases n
  {
    if n < 10 then [DigitChar(n)] else Digits(n / 10) + [DigitChar(n % 10)]
  }

  /** The value of a string of decimal digits. */
  function DigitsValue(s: string): nat
    requires forall i :: 0 <= i < |s| ==> '0' <= s[i] <= '9'
  {
    if s == [] then 0
    else DigitsValue(s[..|s| - 1]) * 10 + (s[|s| - 1] as int - '0' as int)
  }

  lemma {:induction false} DigitsRoundTrip(n: nat)
    ensures DigitsValue(Digits(n)) == n
    decreases n
  {
    if n >= 10 {
      var s := Digits(n);
      DigitsRoundTrip(n / 10);
      assert s[..|s| - 1] == Digits(n / 10);
    }
  }

  /** Go's `fmt.Sprintf("%d", n)`. */
  function DecimalString(n: int): (s: string)
    ensures |s| > 0
    ensures n >= 0 ==> '0' <= s[0] <= '9'
    ensures n < 0 ==> s[0] == '-' && s[1..] == Digits(-n)
  {
    if n < 0 then "-" + Digits(-n) else Digits(n)
  }

  /** `%d` never prints two integers the same way. */
  lemma DecimalStringInjective(a: int, b: int)
    requires DecimalString(a) == DecimalString(b)
    ensures a == b
  {
    if a >= 0 && b >= 0 {
      DigitsRoundTrip(a);
      DigitsRoundTrip(b);
    } else if a < 0 && b < 0 {
      assert Digits(-a) == DecimalString(a)[1..] == DecimalString(b)[1..] == Digits(-b);
      DigitsRoundTrip(-a);
      DigitsRoundTrip(-b);
    }
  }
}
