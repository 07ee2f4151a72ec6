/** Bytes, NUL-terminated strings and the two libc conversions the client relies on:
    `sprintf("%d")` for decimal formatting and `strtol(..., 10)` for parsing, as in
    section 7.22.1.4 of the ISO C standard. */
module CStrings {

  /** A pointer that may be NULL. */
  datatype Option<+T> = None | Some(value: T)

  newtype byte = x: int | 0 <= x < 256

  const NUL: byte := 0
  const LF: byte := 10
  const CR: byte := 13
  const CRLF: seq<byte> := [CR, LF]
  const MINUS: byte := 45
  const PLUS: byte := 43
  const ZERO: byte := 48

  /** The bytes of an ASCII text literal. */
  function Ascii(s: string): (r: seq<byte>)
    ensures |r| == |s|
  {
    seq(|s|, i requires 0 <= i < |s| => (s[i] as int % 256) as byte)
  }

  /** The C string held at the start of a buffer: every byte before the first NUL, or the
      whole buffer when it holds no NUL. */
  function CStr(s: seq<byte>): (r: seq<byte>)
    ensures |r| <= |s| && r == s[..|r|]
    ensures NUL !in r
    ensures |r| < |s| ==> s[|r|] == NUL
    ensures NUL !in s ==> r == s
  {
    if |s| == 0 || s[0] == NUL then [] else [s[0]] + CStr(s[1..])
  }

  /** `strlen` */
  function StrLen(s: seq<byte>): (r: nat)
    ensures r <= |s|
  {
    |CStr(s)|
  }

  /** A C string literal: text with no NUL inside. */
  predicate IsCString(s: seq<byte>) {
    NUL !in s
  }

  predicate IsDigit(c: byte) {
    48 <= c <= 57
  }

  /** `isspace` in the C locale. */
  predicate IsSpace(c: byte) {
    c == 32 || 9 <= c <= 13
  }

  function DigitByte(d: int): (r: byte)
    requires 0 <= d < 10
    ensures IsDigit(r) && r as int - 48 == d
  {
    (48 + d) as byte
  }

  /** Decimal digits of a natural number, most significant first, without leading zeros. */
  function NatDigits(n: nat): (r: seq<byte>)
    ensures 1 <= |r|
    ensures forall i :: 0 <= i < |r| ==> IsDigit(r[i])
    ensures n < 10 <==> |r| == 1
    decreases n
  {
    if n < 10 then [DigitByte(n)] else NatDigits(n / 10) + [DigitByte(n % 10)]
  }

  /** `sprintf(buf, "%d", n)` without the terminating NUL. */
  function Decimal(n: int): (r: seq<byte>)
    ensures 1 <= |r|
    ensures IsCString(r)
    ensures n >= 0 ==> forall i :: 0 <= i < |r| ==> IsDigit(r[i])
  {
    if n < 0 then [MINUS] + NatDigits(-n) else NatDigits(n)
  }

  /** The value of a run of decimal digits. */
  function DigitsValue(s: seq<byte>): (r: nat)
    requires forall i :: 0 <= i < |s| ==> IsDigit(s[i])
  {
    if |s| == 0 then 0
    else
      assert IsDigit(s[|s| - 1]);
      DigitsValue(s[..|s| - 1]) * 10 + (s[|s| - 1] as int - 48)
  }

  lemma {:induction false} DigitsValueOfNatDigits(n: nat)
    ensures DigitsValue(NatDigits(n)) == n
    decreases n
  {
    if n >= 10 {
      var d := NatDigits(n / 10);
      assert (d + [DigitByte(n % 10)])[..|d|] == d;
      DigitsValueOfNatDigits(n / 10);
    }
  }

  lemma {:induction false} NatDigitsBound(n: nat, k: nat)
    requires 1 <= k && n < Pow10(k)
    ensures |NatDigits(n)| <= k
    decreases n
  {
    if n >= 10 {
      assert n / 10 < Pow10(k - 1);
      NatDigitsBound(n / 10, k - 1);
    }
  }

  function Pow10(k: nat): (r: nat)
    ensures r >= 1
  {
    if k == 0 then 1 else 10 * Pow10(k - 1)
  }

  /** Every `int` prints in at most 11 bytes (`-2147483648`). */
  lemma DecimalOfIntIsShort(n: int)
    requires -0x8000_0000 <= n < 0x8000_0000
    ensures |Decimal(n)| <= 11
  {
    assert Pow10(10) == 10_000_000_000;
    NatDigitsBound(if n < 0 then -n else n, 10);
  }

  const INT_MIN: int := -0x8000_0000
  const INT_MAX: int := 0x7fff_ffff
  const LONG_MIN: int := -0x8000_0000_0000_0000
  const LONG_MAX: int := 0x7fff_ffff_ffff_ffff

  /** Outcome of `strtol(s, &tail, 10)`: the converted value, no digits at all (tail == s),
      or a value outside `long` (errno == ERANGE). */
  datatype Conversion = Converted(value: int) | NoDigits | OutOfRange

  /** The number of leading bytes of `s` satisfying `IsSpace`. */
  function SpaceRun(s: seq<byte>): (k: nat)
    ensures k <= |s|
    ensures forall i :: 0 <= i < k ==> IsSpace(s[i])
    ensures k < |s| ==> !IsSpace(s[k])
  {
    if |s| == 0 || !IsSpace(s[0]) then 0 else 1 + SpaceRun(s[1..])
  }

  /** The number of leading decimal digits of `s`. */
  function DigitRun(s: seq<byte>): (k: nat)
    ensures k <= |s|
    ensures forall i :: 0 <= i < k ==> IsDigit(s[i])
    ensures k < |s| ==> !IsDigit(s[k])
  {
    if |s| == 0 || !IsDigit(s[0]) then 0 else 1 + DigitRun(s[1..])
  }

  /** `strtol(s, &tail, 10)` on the C string at `s`: leading white space, an optional sign,
      then the longest run of digits; anything after the digits is ignored. */
  function StrToL(s: seq<byte>): (r: Conversion)
    ensures r.Converted? ==> LONG_MIN <= r.value <= LONG_MAX
  {
    ParseLong(CStr(s))
  }

  function ParseLong(t: seq<byte>): (r: Conversion)
    ensures r.Converted? ==> LONG_MIN <= r.value <= LONG_MAX
  {
    var k := SpaceRun(t);
    var negative := k < |t| && t[k] == MINUS;
    var start := if k < |t| && (t[k] == MINUS || t[k] == PLUS) then k + 1 else k;
    match Magnitude(t[start..])
    case None => NoDigits
    case Some(magnitude) =>
      var v: int := if negative then -(magnitude as int) else magnitude;
      if v < LONG_MIN || v > LONG_MAX then OutOfRange else Converted(v)
  }

  /** The value of the leading run of digits of `s`, or None when `s` does not start with a
      digit. */
  function Magnitude(s: seq<byte>): (r: Option<nat>)
    ensures r.None? <==> DigitRun(s) == 0
  {
    var d := DigitRun(s);
    if d == 0 then None else Some(DigitsValue(s[..d]))
  }

  /** strtol reads back what `%d` printed. */
  lemma StrToLOfDecimal(n: int, tail: seq<byte>)
    requires LONG_MIN <= n <= LONG_MAX
    requires |tail| == 0 || !IsDigit(tail[0])
    ensures StrToL(Decimal(n) + tail) == Converted(n)
  {
    CStrOfConcat(Decimal(n), tail);
    var rest := CStr(tail);
    assert |rest| == 0 || rest[0] == tail[0];
    ParseLongOfDecimal(n, rest);
  }

  lemma ParseLongOfDecimal(n: int, rest: seq<byte>)
    requires LONG_MIN <= n <= LONG_MAX
    requires |rest| == 0 || !IsDigit(rest[0])
    ensures ParseLong(Decimal(n) + rest) == Converted(n)
  {
    var m: nat := if n < 0 then -n else n;
    var digits := NatDigits(m);
    DigitsValueOfNatDigits(m);
    MagnitudeOfDigits(digits, rest);
    if n < 0 {
      assert Decimal(n) == [MINUS] + digits;
      ParseSignedDigits(digits, rest);
    } else {
      ParseUnsignedDigits(digits, rest);
    }
  }

  /** strtol on digits with no sign reads their magnitude. */
  lemma ParseUnsignedDigits(digits: seq<byte>, rest: seq<byte>)
    requires |digits| > 0 && IsDigit(digits[0])
    requires Magnitude(digits + rest).Some? && Magnitude(digits + rest).value <= LONG_MAX
    ensures ParseLong(digits + rest) == Converted(Magnitude(digits + rest).value)
  {
    var t := digits + rest;
    assert t[0] == digits[0];
    assert SpaceRun(t) == 0;
    assert t[0..] == t;
  }

  /** A run of digits followed by a non-digit has the run's value as its magnitude. */
  lemma MagnitudeOfDigits(digits: seq<byte>, rest: seq<byte>)
    requires |digits| > 0 && forall i :: 0 <= i < |digits| ==> IsDigit(digits[i])
    requires |rest| == 0 || !IsDigit(rest[0])
    ensures Magnitude(digits + rest) == Some(DigitsValue(digits))
  {
    DigitRunOfDigits(digits, rest);
    assert (digits + rest)[..|digits|] == digits;
  }

  /** strtol on a minus sign followed by digits reads the negated magnitude. */
  lemma ParseSignedDigits(digits: seq<byte>, rest: seq<byte>)
    requires Magnitude(digits + rest).Some? && Magnitude(digits + rest).value <= -LONG_MIN
    ensures ParseLong([MINUS] + digits + rest) == Converted(-(Magnitude(digits + rest).value as int))
  {
    var t := [MINUS] + digits + rest;
    assert SpaceRun(t) == 0;
    assert t[1..] == digits + rest;
  }

  /** A NUL-free prefix survives the C-string view. */
  lemma {:induction false} CStrOfConcat(a: seq<byte>, b: seq<byte>)
    requires IsCString(a)
    ensures CStr(a + b) == a + CStr(b)
  {
    if |a| > 0 {
      assert (a + b)[0] == a[0] && a[0] != NUL;
      assert (a + b)[1..] == a[1..] + b;
      CStrOfConcat(a[1..], b);
      calc {
        CStr(a + b);
        [a[0]] + CStr(a[1..] + b);
        [a[0]] + (a[1..] + CStr(b));
        ([a[0]] + a[1..]) + CStr(b);
        { assert [a[0]] + a[1..] == a; }
        a + CStr(b);
      }
    } else {
      assert a + b == b;
    }
  }

  lemma {:induction false} DigitRunOfDigits(digits: seq<byte>, rest: seq<byte>)
    requires forall i :: 0 <= i < |digits| ==> IsDigit(digits[i])
    requires |rest| == 0 || !IsDigit(rest[0])
    ensures DigitRun(digits + rest) == |digits|
  {
    if |digits| > 0 {
      assert (digits + rest)[1..] == digits[1..] + rest;
      DigitRunOfDigits(digits[1..], rest);
    } else {
      assert digits + rest == rest;
    }
  }

  /** An `int` variable assigned from a `long`: the value modulo 2^32 in [-2^31, 2^31). */
  function ToInt32(v: int): (r: int)
    ensures -0x8000_0000 <= r < 0x8000_0000
    ensures (r - v) % 0x1_0000_0000 == 0
    ensures -0x8000_0000 <= v < 0x8000_0000 ==> r == v
  {
    (v + 0x8000_0000) % 0x1_0000_0000 - 0x8000_0000
  }
}
