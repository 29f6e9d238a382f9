/**
 * Rust's `usize::from_str_radix(s, 10)`, which `Args::parse` uses for the
 * index flags (src/main.rs:103, 125, 129), on a 64-bit target.
 */
module Decimal {
  import opened Wrappers

  datatype IntErrorKind = Empty | InvalidDigit | PosOverflow

  /** `std::num::ParseIntError`: only its kind is observable. */
  datatype ParseIntError = ParseIntError(kind: IntErrorKind)

  const UsizeMax: nat := 0xFFFF_FFFF_FFFF_FFFF

  predicate IsDigit(c: char) { '0' <= c <= '9' }

  function DigitValue(c: char): nat
    requires IsDigit(c)
  {
    (c as int - '0' as int) as nat
  }

  predicate AllDigits(s: string) {
    forall j :: 0 <= j < |s| ==> IsDigit(s[j])
  }

  /** The value of a digit string, without any bound. */
  function Value(s: string): nat
    requires AllDigits(s)
  {
    if s == [] then 0 else Value(s[..|s| - 1]) * 10 + DigitValue(s[|s| - 1])
  }

  /**
   * The digits of `s` read from the left as `from_str_radix` reads them:
   * the first character that is not a digit, or the first prefix whose
   * value exceeds `usize::MAX`, ends the read with that error.
   */
  function Digits(s: string): (r: Result<nat, IntErrorKind>)
    ensures r.Ok? ==> AllDigits(s) && r.value == Value(s) && r.value <= UsizeMax
  {
    if s == [] then Ok(0)
    else
      match Digits(s[..|s| - 1])
      case Err(e) => Err(e)
      case Ok(v) =>
        if !IsDigit(s[|s| - 1]) then Err(InvalidDigit)
        else if v * 10 + DigitValue(s[|s| - 1]) > UsizeMax then Err(PosOverflow)
        else Ok(v * 10 + DigitValue(s[|s| - 1]))
  }

  /** `usize::from_str_radix(s, 10)`: an optional `+`, then decimal digits. */
  function ParseUsize(s: string): (r: Result<nat, ParseIntError>)
    ensures s == [] ==> r == Err(ParseIntError(Empty))
    ensures r.Ok? ==> r.value <= UsizeMax
  {
    if s == [] then Err(ParseIntError(Empty))
    else if s[0] == '+' && |s| == 1 then Err(ParseIntError(InvalidDigit))
    else
      var digits := if s[0] == '+' then s[1..] else s;
      match Digits(digits)
      case Ok(v) => Ok(v)
      case Err(e) => Err(ParseIntError(e))
  }

  /** A digit string within range reads back as its value; one out of range overflows. */
  lemma {:induction false} DigitsOfValue(s: string)
    requires AllDigits(s)
    ensures Value(s) <= UsizeMax ==> Digits(s) == Ok(Value(s))
    ensures Value(s) > UsizeMax ==> Digits(s) == Err(PosOverflow)
  {
    if s != [] {
      var init := s[..|s| - 1];
      assert AllDigits(init);
      DigitsOfValue(init);
      ValueOfPrefix(s);
    }
  }

  /** Dropping the last digit never increases the value. */
  lemma ValueOfPrefix(s: string)
    requires AllDigits(s) && s != []
    ensures Value(s[..|s| - 1]) <= Value(s)
  {
  }

  /** Reading digits succeeds exactly on digit strings whose value fits in `usize`. */
  lemma DigitsOk(s: string)
    ensures Digits(s).Ok? <==> AllDigits(s) && Value(s) <= UsizeMax
  {
    if AllDigits(s) {
      DigitsOfValue(s);
    }
  }

  /** `n.to_string()`: the decimal digits of `n`, without leading zeros. */
  function ToDecimal(n: nat): (s: string)
    ensures s != [] && AllDigits(s)
  {
    var d := (('0' as int) + n % 10) as char;
    if n < 10 then [d] else ToDecimal(n / 10) + [d]
  }

  /** Printing a `usize` in decimal and parsing it back gives the same number. */
  lemma {:induction false} ParseDecimal(n: nat)
    requires n <= UsizeMax
    ensures ParseUsize(ToDecimal(n)) == Ok(n)
  {
    DecimalValue(n);
    DigitsOfValue(ToDecimal(n));
  }

  lemma {:induction false} DecimalValue(n: nat)
    ensures Value(ToDecimal(n)) == n
  {
    var s := ToDecimal(n);
    if n >= 10 {
      DecimalValue(n / 10);
      assert s[..|s| - 1] == ToDecimal(n / 10);
    }
  }

  /** The error of the source's unit test (src/main.rs:183-186). */
  lemma ParseLetters()
    ensures ParseUsize("abc") == Err(ParseIntError(InvalidDigit))
  {
    assert "abc"[..2] == "ab" && "ab"[..1] == "a" && "a"[..0] == "";
  }
}
