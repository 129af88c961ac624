/**
 * Human-readable byte counts: the unit is chosen by strict thresholds at 1024, 1024^2
 * and 1024^3; counts up to 1024 are printed exactly, larger ones scaled to the unit with
 * two decimals.
 */
module BytesDisplay {

  datatype Unit = B | KB | MB | GB

  const KiB: nat := 1024
  const MiB: nat := 1024 * 1024
  const GiB: nat := 1024 * 1024 * 1024

  /** The unit a count of `bytes` is shown in: the largest whose size it strictly exceeds. */
  function UnitFor(bytes: nat): (u: Unit)
    ensures u == B <==> bytes <= KiB
    ensures u == KB <==> KiB < bytes <= MiB
    ensures u == MB <==> MiB < bytes <= GiB
    ensures u == GB <==> GiB < bytes
  {
    if bytes > GiB then GB
    else if bytes > MiB then MB
    else if bytes > KiB then KB
    else B
  }

  /** Bytes per unit. */
  function Divisor(u: Unit): nat {
    match u
    case B => 1
    case KB => KiB
    case MB => MiB
    case GB => GiB
  }

  /** The unit's suffix. */
  function Suffix(u: Unit): string {
    match u
    case B => "B"
    case KB => "KB"
    case MB => "MB"
    case GB => "GB"
  }

  function Rank(u: Unit): nat {
    match u
    case B => 0
    case KB => 1
    case MB => 2
    case GB => 3
  }

  /** A larger count never gets a smaller unit. */
  lemma UnitMonotone(a: nat, b: nat)
    requires a <= b
    ensures Rank(UnitFor(a)) <= Rank(UnitFor(b))
  {
  }

  /** In every scaled unit the number shown is above 1, and at most 1024 below GB. */
  lemma ScaledInRange(bytes: nat)
    requires UnitFor(bytes) != B
    ensures 1.0 < bytes as real / Divisor(UnitFor(bytes)) as real
    ensures UnitFor(bytes) != GB ==> bytes as real / Divisor(UnitFor(bytes)) as real <= 1024.0
  {
    var d := Divisor(UnitFor(bytes)) as real;
    assert d > 0.0;
    assert bytes as real > d;
    if UnitFor(bytes) != GB {
      assert bytes as real <= 1024.0 * d;
    }
  }

  /** The character of a decimal digit. */
  function DigitChar(d: nat): (c: char)
    requires d < 10
    ensures '0' <= c <= '9'
  {
    ['0', '1', '2', '3', '4', '5', '6', '7', '8', '9'][d]
  }

  /** The value of a decimal digit character. */
  function DigitValue(c: char): nat
    requires '0' <= c <= '9'
  {
    c as nat - '0' as nat
  }

  /** The decimal rendering of `n`, as `{}` prints an unsigned integer. */
  function DecimalDigits(n: nat): (r: string)
    ensures |r| >= 1
    ensures forall k :: 0 <= k < |r| ==> '0' <= r[k] <= '9'
    ensures r[0] == '0' ==> r == "0"
  {
    if n < 10 then [DigitChar(n)] else DecimalDigits(n / 10) + [DigitChar(n % 10)]
  }

  /** The number a string of decimal digits denotes. */
  function ParseDecimal(s: string): nat
    requires forall k :: 0 <= k < |s| ==> '0' <= s[k] <= '9'
  {
    if s == [] then 0 else 10 * ParseDecimal(s[..|s| - 1]) + DigitValue(s[|s| - 1])
  }

  /** Reading the rendering back gives the number. */
  lemma {:induction false} DecimalRoundTrip(n: nat)
    ensures ParseDecimal(DecimalDigits(n)) == n
  {
    var s := DecimalDigits(n);
    if n < 10 {
      assert s[..0] == [];
    } else {
      assert s[..|s| - 1] == DecimalDigits(n / 10);
      DecimalRoundTrip(n / 10);
    }
  }

  /** Renderings of different numbers differ. */
  lemma DecimalInjective(a: nat, b: nat)
    requires DecimalDigits(a) == DecimalDigits(b)
    ensures a == b
  {
    DecimalRoundTrip(a);
    DecimalRoundTrip(b);
  }

  /**
   * `bytes_display`. The `{:.2}` rendering of a floating-point quotient is the parameter
   * `fixed2`; counts up to 1024 are rendered exactly.
   */
  function Display(bytes: nat, fixed2: real -> string): (r: string)
    ensures |r| >= 1 && r[|r| - 1] == 'B'
    ensures UnitFor(bytes) == B ==> r == DecimalDigits(bytes) + "B"
    ensures UnitFor(bytes) != B ==>
              r == fixed2(bytes as real / Divisor(UnitFor(bytes)) as real) + Suffix(UnitFor(bytes))
  {
    var u := UnitFor(bytes);
    if u == B then DecimalDigits(bytes) + "B"
    else fixed2(bytes as real / Divisor(u) as real) + Suffix(u)
  }

  /** 1024 is still shown in bytes, exactly. */
  lemma KiBShownExactly(fixed2: real -> string)
    ensures Display(1024, fixed2) == "1024B"
  {
    assert DecimalDigits(1024) == DecimalDigits(102) + ['4'];
    assert DecimalDigits(102) == DecimalDigits(10) + ['2'];
    assert DecimalDigits(10) == DecimalDigits(1) + ['0'];
  }
}
