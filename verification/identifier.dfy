/**
 * When an identifier counts as a list position.  The two front ends decide
 * this differently:
 *  - the Rust binary uses `str::parse::<usize>()`: an optional leading `+`,
 *    then one or more ASCII digits, with a value that fits in a 64-bit
 *    `usize`; anything else (including an overflowing numeral) is not a
 *    position and falls through to the id lookups;
 *  - the Python script uses `str.isdigit()` and then `int()`: one or more
 *    digits, no sign, any size, so every digit string is a position.
 */
module Identifier {
  import opened Wrappers

  datatype Dialect = Rust | Python

  /** The largest `usize` on a 64-bit target. */
  const UsizeMax: nat := 0xFFFF_FFFF_FFFF_FFFF

  predicate IsDigit(c: char)
  {
    '0' <= c <= '9'
  }

  predicate AllDigits(s: string)
  {
    forall i :: 0 <= i < |s| ==> IsDigit(s[i])
  }

  /** The decimal value of a digit string, leading zeros allowed. */
  function DigitsValue(s: string): nat
    requires AllDigits(s)
    decreases |s|
  {
    if s == [] then 0
    else DigitsValue(s[..|s| - 1]) * 10 + (s[|s| - 1] as int - '0' as int)
  }

  /** `str::parse::<usize>()`: `None` stands for its `Err`. */
  function ParseUsize(s: string): (r: Option<nat>)
    ensures r.Some? ==> r.value <= UsizeMax
    ensures r.Some? ==> s != [] && IsDigit(s[|s| - 1])
  {
    var digits := if s != [] && s[0] == '+' then s[1..] else s;
    if digits == [] || !AllDigits(digits) then None
    else if DigitsValue(digits) > UsizeMax then None
    else Some(DigitsValue(digits))
  }

  /** `str.isdigit()`, restricted to ASCII digits. */
  predicate IsDigitString(s: string)
  {
    s != [] && AllDigits(s)
  }

  /** The 1-based list position an identifier denotes, if it is numeric. */
  function Position(d: Dialect, s: string): Option<nat>
  {
    match d
    case Rust => ParseUsize(s)
    case Python => if IsDigitString(s) then Some(DigitsValue(s)) else None
  }

  /** The decimal numeral the list command prints in front of each row (`[n]`). */
  function Numeral(n: nat): (s: string)
    ensures IsDigitString(s)
    decreases n
  {
    if n < 10 then [('0' as int + n) as char]
    else Numeral(n / 10) + [('0' as int + n % 10) as char]
  }

  lemma {:induction false} NumeralValue(n: nat)
    ensures DigitsValue(Numeral(n)) == n
    decreases n
  {
    if n >= 10 {
      NumeralValue(n / 10);
      var s := Numeral(n);
      assert s[..|s| - 1] == Numeral(n / 10);
    }
  }

  /**
   * The numeral printed for a list position reads back as that position, in
   * both front ends (for positions a `usize` can hold).
   */
  lemma NumeralRoundTrip(d: Dialect, n: nat)
    requires n <= UsizeMax
    ensures Position(d, Numeral(n)) == Some(n)
  {
    NumeralValue(n);
  }

  /** On unsigned numerals that fit in a `usize`, and on non-numerals, the front ends agree. */
  lemma DialectsAgree(s: string)
    requires s == [] || s[0] != '+'
    requires AllDigits(s) ==> s == [] || DigitsValue(s) <= UsizeMax
    ensures Position(Rust, s) == Position(Python, s)
  {
  }

  /** A leading `+` makes a position in Rust and an id lookup in Python. */
  lemma PlusSign(s: string)
    requires IsDigitString(s) && DigitsValue(s) <= UsizeMax
    ensures Position(Rust, "+" + s) == Some(DigitsValue(s))
    ensures Position(Python, "+" + s) == None
  {
    assert ("+" + s)[1..] == s;
  }

  /**
   * A numeral too large for a `usize` is no position in Rust (so the id
   * lookups run), but still a position in Python.
   */
  lemma Overflow(s: string)
    requires IsDigitString(s) && DigitsValue(s) > UsizeMax
    ensures Position(Rust, s) == None
    ensures Position(Python, s) == Some(DigitsValue(s))
  {
  }

  /** Such numerals exist: 2^64 is one. */
  lemma OverflowingNumeral()
    ensures IsDigitString(Numeral(UsizeMax + 1)) && Position(Rust, Numeral(UsizeMax + 1)) == None
  {
    NumeralValue(UsizeMax + 1);
    Overflow(Numeral(UsizeMax + 1));
  }
}
