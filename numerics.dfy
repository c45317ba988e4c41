/** Integer machinery shared by the editor and the key loop: an Option type, the
    range of Rust's `i8`, Rust's truncating `/` and `%`, and the decimal `str::parse`
    that the program applies to the size buffer. */
module Numerics {

  datatype Option<T> = None | Some(value: T) {
    /** Rust's `Option::unwrap_or`. */
    function UnwrapOr(default: T): T {
      if Some? then value else default
    }
  }

  function Abs(a: int): nat {
    if a < 0 then -a else a
  }

  /** The values an `i8` can hold. */
  predicate IsI8(v: int) {
    -128 <= v <= 127
  }

  /** An `i8` division or remainder `a / b`, `a % b` that does not panic:
      the divisor is non-zero and the quotient does not overflow. */
  predicate DivSafe(a: int, b: int) {
    b != 0 && !(a == -128 && b == -1)
  }

  /** Rust's `/` on signed integers: the quotient rounded toward zero. */
  function TDiv(a: int, b: int): (q: int)
    requires b != 0
    ensures Abs(b) * Abs(q) <= Abs(a) < Abs(b) * Abs(q) + Abs(b)
    ensures q == 0 || ((q < 0) <==> ((a < 0) != (b < 0)))
  {
    var q := Abs(a) / Abs(b);
    DivBounds(Abs(a), Abs(b));
    if (a < 0) == (b < 0) then q else -q
  }

  /** Euclidean division on naturals brackets the dividend between two multiples. */
  lemma DivBounds(a: nat, b: nat)
    requires b > 0
    ensures 0 <= a / b && b * (a / b) <= a < b * (a / b) + b
  {
  }

  /** Rust's `%` on signed integers: the remainder that goes with `TDiv`, whose sign
      follows the dividend (Dafny's own `%` is Euclidean and never negative). */
  function TRem(a: int, b: int): (r: int)
    requires b != 0
    ensures a == b * TDiv(a, b) + r
    ensures Abs(r) < Abs(b)
    ensures r == 0 || ((r < 0) <==> (a < 0))
  {
    a - b * TDiv(a, b)
  }

  lemma {:induction false} TruncatingSmall(a: int, b: int)
    requires 0 <= a < b
    ensures TDiv(a, b) == 0 && TRem(a, b) == a
  {
  }

  predicate IsAsciiDigit(c: char) {
    '0' <= c <= '9'
  }

  predicate AllDigits(s: string) {
    forall i :: 0 <= i < |s| ==> IsAsciiDigit(s[i])
  }

  /** The number a string of decimal digits denotes, most significant digit first. */
  function DigitsValue(s: string): nat
    requires AllDigits(s)
  {
    if |s| == 0 then 0 else 10 * DigitsValue(s[..|s| - 1]) + (s[|s| - 1] as int - '0' as int)
  }

  /** Rust's `str::parse` for an integer type holding [lo, hi]: an optional `+`
      (or `-` when the type is signed), then one or more ASCII digits, and a value
      that fits the type. Anything else is an error, here `None`. */
  function ParseInt(s: string, lo: int, hi: int): (r: Option<int>)
    ensures r.Some? ==> lo <= r.value <= hi
    ensures r.Some? ==>
      0 < |s| && AllDigits(s[1..]) &&
      (IsAsciiDigit(s[0]) || (1 < |s| && (s[0] == '+' || (lo < 0 && s[0] == '-'))))
    ensures r.Some? && r.value < 0 ==> lo < 0 && 0 < |s| && s[0] == '-'
    ensures 0 < |s| && AllDigits(s) ==>
      r == if lo <= DigitsValue(s) <= hi then Some(DigitsValue(s)) else None
    ensures 1 < |s| && s[0] == '+' && AllDigits(s[1..]) ==>
      r == if lo <= DigitsValue(s[1..]) <= hi then Some(DigitsValue(s[1..])) else None
    ensures 1 < |s| && s[0] == '-' && AllDigits(s[1..]) ==>
      r == if lo < 0 && lo <= -(DigitsValue(s[1..]) as int) <= hi then Some(-(DigitsValue(s[1..]) as int)) else None
  {
    var negative := 0 < |s| && s[0] == '-' && lo < 0;
    var digits := if 0 < |s| && (s[0] == '+' || negative) then s[1..] else s;
    if |digits| == 0 || !AllDigits(digits) then None
    else
      var magnitude: int := DigitsValue(digits);
      var v := if negative then -magnitude else magnitude;
      if lo <= v <= hi then Some(v) else None
  }

  function ParseI8(s: string): Option<int> {
    ParseInt(s, -128, 127)
  }

  function ParseU8(s: string): Option<int> {
    ParseInt(s, 0, 255)
  }

  function ParseUsize(s: string): Option<int> {
    ParseInt(s, 0, 0x1_0000_0000_0000_0000 - 1)
  }

  /** A leading `+` is accepted, `-` only for a signed type, and an empty text or a
      value outside the type is an error. */
  lemma ParseExamples()
    ensures ParseI8("+5") == Some(5) && ParseI8("-5") == Some(-5) && ParseU8("-5") == None
    ensures ParseI8("") == None && ParseI8("+") == None && ParseI8("128") == None
    ensures ParseU8("255") == Some(255) && ParseI8("1a") == None
  {
    assert DigitsValue("5") == 5;
    assert DigitsValue("128") == 128;
    assert DigitsValue("255") == 255;
  }

  /** A buffer that parses both as `i8` and as an unsigned type gives the same number
      both times, so the size the editor commits (`usize`), the size the key loop reads
      (`i8`) and the size the result is printed with (`u8`) agree. */
  lemma {:induction false} ParseAgrees(s: string)
    requires ParseI8(s).Some?
    requires ParseUsize(s).Some? || ParseU8(s).Some?
    ensures 0 <= ParseI8(s).value
    ensures ParseUsize(s) == ParseI8(s) && ParseU8(s) == ParseI8(s)
  {
  }
}
