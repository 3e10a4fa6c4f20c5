/**
 * utils.ReadIdParam: the `id` URL parameter parsed as a signed decimal
 * 64-bit integer, with strconv.ParseInt's digit-by-digit overflow checks.
 */
module Utils {
  import opened Wrappers

  const MaxUint64: int := 0xffff_ffff_ffff_ffff
  /** Go's cutoff: an accumulated value at or above it cannot take another digit. */
  const Cutoff: int := MaxUint64 / 10 + 1
  const MinInt64: int := -0x8000_0000_0000_0000
  const MaxInt64: int := 0x7fff_ffff_ffff_ffff

  const MissingIdParameter: string := "missing or invalid ID parameter"
  const InvalidIdParameter: string := "invalid ID parameter"

  predicate IsDigit(c: char)
  {
    '0' <= c <= '9'
  }

  predicate AllDigits(s: string)
  {
    forall i :: 0 <= i < |s| ==> IsDigit(s[i])
  }

  function DigitValue(c: char): nat
    requires IsDigit(c)
  {
    c as int - '0' as int
  }

  /** The value of the decimal digits `s` read after an accumulated value `n`. */
  function Acc(n: nat, s: string): nat
    requires AllDigits(s)
    decreases |s|
  {
    if s == [] then n else Acc(n * 10 + DigitValue(s[0]), s[1..])
  }

  /** The syntax strconv.ParseInt accepts in base 10: an optional sign and one or more digits. */
  predicate IsDecimal(s: string)
  {
    if |s| > 0 && (s[0] == '+' || s[0] == '-') then |s| > 1 && AllDigits(s[1..])
    else |s| > 0 && AllDigits(s)
  }

  /** The mathematical value of a decimal string. */
  function DecimalValue(s: string): int
    requires IsDecimal(s)
  {
    if s[0] == '-' then -(Acc(0, s[1..]) as int) else if s[0] == '+' then Acc(0, s[1..]) else Acc(0, s)
  }

  /** strconv.ParseUint(s, 10, 64) from accumulated value `n`: None for a non-digit or an overflow of 64 bits. */
  function ParseUintFrom(s: string, n: nat): (r: Option<nat>)
    requires n <= MaxUint64
    ensures r.Some? ==> n <= r.value <= MaxUint64
    ensures r.Some? ==> AllDigits(s)
    decreases |s|
  {
    if s == [] then Some(n)
    else if !IsDigit(s[0]) then None
    else if n >= Cutoff then None
    else
      var n1 := n * 10 + DigitValue(s[0]);
      if n1 > MaxUint64 then None else ParseUintFrom(s[1..], n1)
  }

  /** strconv.ParseUint(s, 10, 64): the empty string is a syntax error. */
  function ParseUint(s: string): Option<nat>
  {
    if s == [] then None else ParseUintFrom(s, 0)
  }

  /** strconv.ParseInt(s, 10, 64): sign, unsigned magnitude, then the signed range check. */
  function ParseInt(s: string): (r: Option<int>)
    ensures r.Some? ==> MinInt64 <= r.value <= MaxInt64
    ensures r.Some? ==> IsDecimal(s)
  {
    if s == [] then None
    else
      var neg := s[0] == '-';
      var digits := if s[0] == '+' || s[0] == '-' then s[1..] else s;
      match ParseUint(digits)
      case None => None
      case Some(un) =>
        if !neg && un >= -MinInt64 then None
        else if neg && un > -MinInt64 then None
        else Some(if neg then -(un as int) else un)
  }

  /** More digits never make the value smaller. */
  lemma {:induction false} AccGrows(n: nat, s: string)
    requires AllDigits(s)
    ensures Acc(n, s) >= n
    ensures s != [] ==> Acc(n, s) >= n * 10
    decreases |s|
  {
    if s != [] {
      AccGrows(n * 10 + DigitValue(s[0]), s[1..]);
    }
  }

  /** The digit loop with its overflow checks computes the value exactly when it fits in 64 bits. */
  lemma {:induction false} ParseUintFromValue(s: string, n: nat)
    requires n <= MaxUint64
    ensures ParseUintFrom(s, n) == if AllDigits(s) && Acc(n, s) <= MaxUint64 then Some(Acc(n, s)) else None
    decreases |s|
  {
    if s != [] {
      if !IsDigit(s[0]) {
        assert !AllDigits(s);
      } else {
        assert AllDigits(s) <==> AllDigits(s[1..]);
        if n >= Cutoff {
          if AllDigits(s) {
            AccGrows(n, s);
          }
        } else {
          var n1 := n * 10 + DigitValue(s[0]);
          if n1 > MaxUint64 {
            if AllDigits(s) {
              AccGrows(n1, s[1..]);
            }
          } else {
            ParseUintFromValue(s[1..], n1);
          }
        }
      }
    }
  }

  /** strconv.ParseInt(s, 10, 64) accepts exactly the decimal strings whose value is an int64, and returns that value. */
  lemma ParseIntValue(s: string)
    ensures ParseInt(s) == if IsDecimal(s) && MinInt64 <= DecimalValue(s) <= MaxInt64 then Some(DecimalValue(s)) else None
  {
    if s != [] {
      var digits := if s[0] == '+' || s[0] == '-' then s[1..] else s;
      if digits != [] {
        ParseUintFromValue(digits, 0);
      }
    }
  }

  /**
   * ReadIdParam: an empty parameter is "missing or invalid ID parameter";
   * anything strconv.ParseInt rejects (not decimal, or outside int64) is
   * "invalid ID parameter"; the value returned beside an error is 0.
   */
  function ReadIdParam(param: string): (r: (int, Option<string>))
    ensures r.1.Some? ==> r.0 == 0
    ensures r.1 == Some(MissingIdParameter) <==> param == ""
    ensures r.1 == Some(InvalidIdParameter) <==>
      param != "" && !(IsDecimal(param) && MinInt64 <= DecimalValue(param) <= MaxInt64)
    ensures r.1.None? ==> IsDecimal(param) && r.0 == DecimalValue(param) && MinInt64 <= r.0 <= MaxInt64
  {
    ParseIntValue(param);
    if param == "" then (0, Some(MissingIdParameter))
    else match ParseInt(param)
      case None => (0, Some(InvalidIdParameter))
      case Some(id) => (id, None)
  }

  function DigitChar(d: nat): (c: char)
    requires d < 10
    ensures IsDigit(c) && DigitValue(c) == d
  {
    ('0' as int + d) as char
  }

  /** strconv.FormatInt(n, 10) for n >= 0. */
  function FormatNat(n: nat): (s: string)
    ensures |s| > 0 && AllDigits(s)
  {
    if n < 10 then [DigitChar(n)] else FormatNat(n / 10) + [DigitChar(n % 10)]
  }

  /** strconv.FormatInt(n, 10): a minus sign for negative values. */
  function FormatInt(n: int): string
  {
    if n < 0 then "-" + FormatNat(-n) else FormatNat(n)
  }

  /** Reading one more digit multiplies by ten and adds it. */
  lemma {:induction false} AccSnoc(n: nat, s: string, c: char)
    requires AllDigits(s) && IsDigit(c)
    ensures AllDigits(s + [c]) && Acc(n, s + [c]) == Acc(n, s) * 10 + DigitValue(c)
    decreases |s|
  {
    if s != [] {
      assert (s + [c])[1..] == s[1..] + [c];
      AccSnoc(n * 10 + DigitValue(s[0]), s[1..], c);
    }
  }

  /** The rendering of a natural number reads back as that number. */
  lemma {:induction false} FormatNatValue(n: nat)
    ensures Acc(0, FormatNat(n)) == n
  {
    if n >= 10 {
      FormatNatValue(n / 10);
      AccSnoc(0, FormatNat(n / 10), DigitChar(n % 10));
    }
  }

  /** Round trip: the base-10 rendering of every int64, negative ones included, is read back as that value. */
  lemma ReadIdParamRoundTrip(n: int)
    requires MinInt64 <= n <= MaxInt64
    ensures ReadIdParam(FormatInt(n)) == (n, None)
  {
    var m := if n < 0 then -n else n;
    FormatNatValue(m);
    var digits := FormatNat(m);
    assert IsDigit(digits[0]);
    if n < 0 {
      assert FormatInt(n)[1..] == digits;
    }
  }
}
