/**
 * Unique entity names.
 *
 * `toFormattedString` writes an unsigned 32-bit value in decimal through a
 * stream with a field width and '0' as fill character; every scene object
 * (nodes and components alike) takes its name from the base string the caller
 * gives, an underscore, and the value of a process-wide 64-bit counter that
 * the constructor post-increments.
 */
module Naming {

  const UINT8_LIMIT: nat := 0x100
  const UINT32_LIMIT: nat := 0x1_0000_0000
  const UINT64_LIMIT: nat := 0x1_0000_0000_0000_0000

  /** Field width the scene object constructor asks for. */
  const NAME_DIGITS: nat := 8

  /** 10^k */
  function Pow10(k: nat): (p: nat)
    ensures p >= 1
  {
    if k == 0 then 1 else 10 * Pow10(k - 1)
  }

  predicate IsDigit(c: char) {
    '0' <= c <= '9'
  }

  predicate AllDigits(s: string) {
    forall i :: 0 <= i < |s| ==> IsDigit(s[i])
  }

  function DigitChar(d: nat): (c: char)
    requires d < 10
    ensures IsDigit(c)
  {
    (48 + d) as char
  }

  function DigitValue(c: char): nat
    requires IsDigit(c)
  {
    c as nat - 48
  }

  /** The plain decimal form of `n`: no leading zero, and "0" for zero. */
  function Decimal(n: nat): (s: string)
    ensures |s| >= 1 && AllDigits(s)
  {
    if n < 10 then [DigitChar(n)] else Decimal(n / 10) + [DigitChar(n % 10)]
  }

  /** `n` copies of the fill character '0'. */
  function Zeros(n: nat): (s: string)
    ensures |s| == n && forall i :: 0 <= i < n ==> s[i] == '0'
  {
    if n == 0 then [] else Zeros(n - 1) + ['0']
  }

  /** The value of a string of decimal digits, read most significant first. */
  function ParseDecimal(s: string): nat
    requires AllDigits(s)
  {
    if s == [] then 0 else 10 * ParseDecimal(s[..|s| - 1]) + DigitValue(s[|s| - 1])
  }

  /**
   * `toFormattedString(input, length)`: the decimal form of `input`
   * right-aligned in a field of `length` characters filled with '0'. A stream
   * field width only pads; it never truncates.
   */
  function ToFormattedString(input: nat, length: nat): (r: string)
    requires input < UINT32_LIMIT && length < UINT8_LIMIT
    // padding never truncates: max(length, number of digits) characters
    ensures |r| == if |Decimal(input)| >= length then |Decimal(input)| else length
    // the decimal form, right-aligned, with '0' in front of it
    ensures r[|r| - |Decimal(input)|..] == Decimal(input)
    ensures forall i :: 0 <= i < |r| - |Decimal(input)| ==> r[i] == '0'
  {
    var digits := Decimal(input);
    if |digits| >= length then digits else Zeros(length - |digits|) + digits
  }

  /** The name a scene object built from `base` gets while the counter reads `counter`. */
  function ObjectName(base: string, counter: nat): (name: string)
    requires counter < UINT64_LIMIT
    // the name starts with the base and is strictly longer: never the bare base
    ensures |name| > |base| && name[..|base|] == base && name != base
  {
    // the 64-bit counter is passed to a uint32_t parameter
    base + "_" + ToFormattedString(counter % UINT32_LIMIT, NAME_DIGITS)
  }

  // ---------------------------------------------------------------------
  // Properties of the decimal form
  // ---------------------------------------------------------------------

  lemma {:induction false} ParseDecimalOfDecimal(n: nat)
    ensures ParseDecimal(Decimal(n)) == n
  {
    if n >= 10 {
      ParseDecimalOfDecimal(n / 10);
      var s := Decimal(n);
      assert s[..|s| - 1] == Decimal(n / 10);
    }
  }

  lemma {:induction false} ParseDecimalSkipsZeros(k: nat, s: string)
    requires AllDigits(s)
    ensures AllDigits(Zeros(k) + s)
    ensures ParseDecimal(Zeros(k) + s) == ParseDecimal(s)
  {
    if s == [] {
      assert Zeros(k) + s == Zeros(k);
      ZerosParseToZero(k);
    } else {
      var t := Zeros(k) + s;
      assert t[..|t| - 1] == Zeros(k) + s[..|s| - 1];
      ParseDecimalSkipsZeros(k, s[..|s| - 1]);
    }
  }

  lemma {:induction false} ZerosParseToZero(k: nat)
    ensures ParseDecimal(Zeros(k)) == 0
  {
    if k > 0 {
      assert Zeros(k)[..k - 1] == Zeros(k - 1);
      ZerosParseToZero(k - 1);
    }
  }

  /** The number of digits of `n` is the least `d >= 1` with `n < 10^d`. */
  lemma {:induction false} DecimalLength(n: nat, d: nat)
    requires d >= 1
    ensures n < Pow10(d) <==> |Decimal(n)| <= d
  {
    if n >= 10 {
      if d > 1 {
        DecimalLength(n / 10, d - 1);
      } else {
        assert |Decimal(n)| >= 2 by { assert |Decimal(n)| == |Decimal(n / 10)| + 1; }
      }
    }
  }

  // ---------------------------------------------------------------------
  // Properties of toFormattedString
  // ---------------------------------------------------------------------

  /** Every character is a digit and reading the digits back gives the input. */
  lemma FormattedParsesBack(input: nat, length: nat)
    requires input < UINT32_LIMIT && length < UINT8_LIMIT
    ensures AllDigits(ToFormattedString(input, length))
    ensures ParseDecimal(ToFormattedString(input, length)) == input
  {
    var digits := Decimal(input);
    ParseDecimalOfDecimal(input);
    if |digits| < length {
      ParseDecimalSkipsZeros(length - |digits|, digits);
    }
  }

  /** An input that already has at least `length` digits comes back in plain decimal. */
  lemma FormattedWideInput(input: nat, length: nat)
    requires input < UINT32_LIMIT && length < UINT8_LIMIT
    requires length >= 1 && input >= Pow10(length - 1)
    ensures ToFormattedString(input, length) == Decimal(input)
  {
    if length > 1 {
      DecimalLength(input, length - 1);
    }
  }

  /** Inputs below 10^length come out exactly `length` characters wide. */
  lemma FormattedExactWidth(input: nat, length: nat)
    requires input < UINT32_LIMIT && length < UINT8_LIMIT
    requires length >= 1 && input < Pow10(length)
    ensures |ToFormattedString(input, length)| == length
  {
    DecimalLength(input, length);
  }

  // ---------------------------------------------------------------------
  // Properties of the generated names
  // ---------------------------------------------------------------------

  /** Below 10^8 the name ends in "_" and exactly eight digits that read back as the counter. */
  lemma NameSuffix(base: string, counter: nat)
    requires counter < Pow10(NAME_DIGITS)
    ensures var name := ObjectName(base, counter);
            |name| == |base| + 1 + NAME_DIGITS &&
            name[..|base|] == base &&
            name[|base|] == '_' &&
            AllDigits(name[|base| + 1..]) &&
            ParseDecimal(name[|base| + 1..]) == counter
  {
    assert Pow10(NAME_DIGITS) == 100000000;
    assert counter % UINT32_LIMIT == counter;
    var digits := ToFormattedString(counter, NAME_DIGITS);
    FormattedExactWidth(counter, NAME_DIGITS);
    FormattedParsesBack(counter, NAME_DIGITS);
    var name := ObjectName(base, counter);
    assert name == base + "_" + digits;
    assert name[|base| + 1..] == digits;
  }

  /** Two objects built at different counter values below 10^8 get different names, whatever their bases. */
  lemma NamesDiffer(base1: string, c1: nat, base2: string, c2: nat)
    requires c1 < Pow10(NAME_DIGITS) && c2 < Pow10(NAME_DIGITS)
    requires c1 != c2
    ensures ObjectName(base1, c1) != ObjectName(base2, c2)
  {
    NameSuffix(base1, c1);
    NameSuffix(base2, c2);
  }

  /**
   * The process-wide counter `sNameNum`: an unsigned 64-bit value that
   * starts at zero and that every scene object constructor post-increments.
   */
  class NameCounter {
    var value: nat

    ghost predicate Valid()
      reads this
    {
      value < UINT64_LIMIT
    }

    constructor ()
      ensures Valid() && value == 0
    {
      value := 0;
    }

    /** Reads the counter into a new name, then increments it (wrapping at 2^64). */
    method NextName(base: string) returns (name: string)
      requires Valid()
      modifies this
      ensures Valid()
      ensures name == ObjectName(base, old(value))
      ensures value == (old(value) + 1) % UINT64_LIMIT
    {
      name := base + "_" + ToFormattedString(value % UINT32_LIMIT, NAME_DIGITS);
      value := (value + 1) % UINT64_LIMIT;
    }
  }

  /** The name part of every entity of the scene graph. */
  class SceneObject {
    const name: string

    constructor (base: string, counter: NameCounter)
      requires counter.Valid()
      modifies counter
      ensures counter.Valid()
      ensures name == ObjectName(base, old(counter.value))
      ensures counter.value == (old(counter.value) + 1) % UINT64_LIMIT
    {
      var n := counter.NextName(base);
      name := n;
    }
  }
}
