/** `format_file_size`: a byte count rendered with two decimals in binary
    units.  The source divides a float by 1024 until it is below 1024; every
    division by a power of two is exact, so the value is modelled as the
    exact rational size / 1024^k, and the two-decimal rendering rounds that
    rational half-to-even, as Python's fixed-point formatting does. */
module SizeFormat {

  /** The units in the order the loop tries them; the last one is the
      fall-through unit used after four divisions. */
  const Units: seq<string> := ["B", "KB", "MB", "GB", "TB"]

  function Pow1024(k: nat): (r: nat)
    ensures r >= 1
  {
    if k == 0 then 1 else 1024 * Pow1024(k - 1)
  }

  lemma {:induction false} Pow1024Monotone(i: nat, j: nat)
    ensures i <= j ==> Pow1024(i) <= Pow1024(j)
  {
    if i < j {
      Pow1024Monotone(i, j - 1);
    }
  }

  /** The index in Units of the unit a size is shown in: the least k < 4
      with size < 1024^(k+1), and 4 (TB) when there is none. */
  function UnitIndex(size: nat): (k: nat)
    ensures k <= 4
    ensures k < 4 ==> size < Pow1024(k + 1)
    ensures 0 < k ==> Pow1024(k) <= size
  {
    assert Pow1024(4) == 1099511627776;
    if size < 1024 then 0
    else if size < 1048576 then 1
    else if size < 1073741824 then 2
    else if size < 1099511627776 then 3
    else 4
  }

  /** The two bounds of UnitIndex's contract single it out. */
  lemma UnitIndexUnique(size: nat, k: nat)
    requires k <= 4
    requires k < 4 ==> size < Pow1024(k + 1)
    requires 0 < k ==> Pow1024(k) <= size
    ensures UnitIndex(size) == k
  {
    var u := UnitIndex(size);
    Pow1024Monotone(u + 1, k);
    Pow1024Monotone(k + 1, u);
  }

  /** Round to the nearest integer, ties to the even neighbour. */
  function RoundHalfEven(x: real): (q: int)
    requires x >= 0.0
    ensures q >= 0
    ensures q as real - x <= 0.5 && x - q as real <= 0.5
    ensures (q as real - x == 0.5 || x - q as real == 0.5) ==> q % 2 == 0
  {
    var f := x.Floor;
    var frac := x - f as real;
    if frac > 0.5 then f + 1
    else if frac < 0.5 then f
    else if f % 2 == 0 then f
    else f + 1
  }

  /** RoundHalfEven's contract has exactly one solution. */
  lemma RoundHalfEvenUnique(x: real, q: int)
    requires x >= 0.0
    requires q as real - x <= 0.5 && x - q as real <= 0.5
    requires (q as real - x == 0.5 || x - q as real == 0.5) ==> q % 2 == 0
    ensures RoundHalfEven(x) == q
  {
  }

  predicate IsDigit(c: char) {
    '0' <= c <= '9'
  }

  predicate AllDigits(s: string) {
    forall i :: 0 <= i < |s| ==> IsDigit(s[i])
  }

  function DigitChar(d: nat): (c: char)
    requires d < 10
    ensures IsDigit(c) && c as int - '0' as int == d
  {
    ('0' as int + d) as char
  }

  /** Decimal notation of a natural number, as `str(n)`. */
  function Decimal(n: nat): (s: string)
    ensures |s| >= 1 && AllDigits(s)
    ensures |s| > 1 ==> s[0] != '0'
  {
    if n < 10 then [DigitChar(n)] else Decimal(n / 10) + [DigitChar(n % 10)]
  }

  /** The number a string of decimal digits denotes. */
  function DigitsValue(s: string): nat
    requires AllDigits(s)
  {
    if s == [] then 0
    else DigitsValue(s[..|s| - 1]) * 10 + (s[|s| - 1] as int - '0' as int)
  }

  lemma {:induction false} DecimalRoundTrip(n: nat)
    ensures DigitsValue(Decimal(n)) == n
  {
    if n >= 10 {
      DecimalRoundTrip(n / 10);
      var s := Decimal(n);
      assert s[..|s| - 1] == Decimal(n / 10);
    }
  }

  lemma TwoDigitsValue(d1: nat, d2: nat)
    requires d1 < 10 && d2 < 10
    ensures DigitsValue([DigitChar(d1), DigitChar(d2)]) == d1 * 10 + d2
  {
    var s := [DigitChar(d1), DigitChar(d2)];
    assert s[..1] == [DigitChar(d1)];
    assert [DigitChar(d1)][..0] == [];
    assert DigitsValue([DigitChar(d1)]) == d1;
  }

  lemma LastTwoDigits(h: nat)
    ensures (h / 10 % 10) * 10 + h % 10 == h % 100
  {
    var t := h % 100;
    assert h == 100 * (h / 100) + t;
    assert h / 10 == 10 * (h / 100) + t / 10;
    assert h % 10 == t % 10;
  }

  /** `f"{x:.2f}"`: integer digits, a point and two decimals, denoting the
      value of x in hundredths rounded half-to-even. */
  function Fixed2(x: real): (s: string)
    requires x >= 0.0
    ensures |s| >= 4 && s[|s| - 3] == '.'
    ensures AllDigits(s[..|s| - 3]) && AllDigits(s[|s| - 2..])
    ensures DigitsValue(s[..|s| - 3]) * 100 + DigitsValue(s[|s| - 2..]) == RoundHalfEven(x * 100.0)
    ensures |s| > 4 ==> s[0] != '0'
  {
    var h := RoundHalfEven(x * 100.0);
    var whole := Decimal(h / 100);
    var decimals := [DigitChar(h / 10 % 10), DigitChar(h % 10)];
    DecimalRoundTrip(h / 100);
    TwoDigitsValue(h / 10 % 10, h % 10);
    LastTwoDigits(h);
    var s := whole + "." + decimals;
    assert s[..|s| - 3] == whole && s[|s| - 2..] == decimals;
    assert s[0] == whole[0];
    s
  }

  /** The formatted size: size / 1024^k with two decimals, then the unit. */
  function FormatSize(size: nat): (s: string)
    ensures var unit := " " + Units[UnitIndex(size)];
            |s| > |unit| && s[|s| - |unit|..] == unit
  {
    var k := UnitIndex(size);
    Fixed2(size as real / Pow1024(k) as real) + " " + Units[k]
  }

  lemma MulPositive(a: real, b: real)
    requires a > 0.0 && b > 0.0
    ensures a * b > 0.0
  {
  }

  lemma MulNonNegative(a: real, b: real)
    requires a >= 0.0 && b > 0.0
    ensures a * b >= 0.0
  {
  }

  /** Comparing the scaled value with 1024 is comparing the size with the
      next power of 1024. */
  lemma ScaledBelow(n: nat, p: nat)
    requires p >= 1
    ensures (n as real / p as real < 1024.0) <==> n < 1024 * p
  {
    var q := p as real;
    var v := n as real / q;
    assert v * q == n as real;
    assert (1024 * p) as real == 1024.0 * q;
    if v < 1024.0 {
      MulPositive(1024.0 - v, q);
    } else {
      MulNonNegative(v - 1024.0, q);
    }
  }

  lemma ScaledDivide(n: nat, p: nat)
    requires p >= 1
    ensures (n as real / p as real) / 1024.0 == n as real / (1024 * p) as real
  {
    assert (1024 * p) as real == 1024.0 * p as real;
  }

  /** `format_file_size`, loop for loop: try each unit while the value is at
      least 1024, dividing by 1024 between tries. */
  method FormatFileSize(sizeInBytes: nat) returns (s: string)
    ensures s == FormatSize(sizeInBytes)
  {
    var size: real := sizeInBytes as real;
    var i := 0;
    while i < 4
      invariant 0 <= i <= 4
      invariant size == sizeInBytes as real / Pow1024(i) as real
      invariant 0 < i ==> Pow1024(i) <= sizeInBytes
    {
      ScaledBelow(sizeInBytes, Pow1024(i));
      if size < 1024.0 {
        UnitIndexUnique(sizeInBytes, i);
        return Fixed2(size) + " " + Units[i];
      }
      ScaledDivide(sizeInBytes, Pow1024(i));
      size := size / 1024.0;
      i := i + 1;
    }
    UnitIndexUnique(sizeInBytes, 4);
    return Fixed2(size) + " " + Units[4];
  }

  lemma PowersOf1024()
    ensures Pow1024(1) == 1024 && Pow1024(2) == 1048576 && Pow1024(3) == 1073741824
  {
  }

  /** FormatSize from its parts: the unit, and the rounded hundredths of
      the scaled value written as whole part and two decimal digits. */
  lemma FormatSizeFrom(size: nat, k: nat, scaled: real, h: nat, whole: nat, d1: nat, d2: nat)
    requires k <= 4
    requires k < 4 ==> size < Pow1024(k + 1)
    requires 0 < k ==> Pow1024(k) <= size
    requires scaled == size as real / Pow1024(k) as real
    requires h as real - scaled * 100.0 <= 0.5 && scaled * 100.0 - h as real <= 0.5
    requires (h as real - scaled * 100.0 == 0.5 || scaled * 100.0 - h as real == 0.5) ==> h % 2 == 0
    requires d1 < 10 && d2 < 10 && h == whole * 100 + d1 * 10 + d2
    ensures FormatSize(size) == Decimal(whole) + "." + [DigitChar(d1), DigitChar(d2)] + " " + Units[k]
  {
    UnitIndexUnique(size, k);
    RoundHalfEvenUnique(scaled * 100.0, h);
    DigitsOf(whole, d1, d2);
  }

  lemma DigitsOf(whole: nat, d1: nat, d2: nat)
    requires d1 < 10 && d2 < 10
    ensures var h := whole * 100 + d1 * 10 + d2;
            h / 100 == whole && h / 10 % 10 == d1 && h % 10 == d2
  {
    var h := whole * 100 + d1 * 10 + d2;
    assert h == (whole * 10 + d1) * 10 + d2;
    assert h / 10 == whole * 10 + d1;
  }

  lemma FourDigitDecimals()
    ensures Decimal(1023) == "1023" && Decimal(1024) == "1024"
  {
    assert Decimal(10) == "10";
    assert Decimal(102) == "102";
  }

  lemma FormatSizeZero()
    ensures FormatSize(0) == "0.00 B"
  {
    PowersOf1024();
    FormatSizeFrom(0, 0, 0.0, 0, 0, 0, 0);
  }

  lemma FormatSizeBelowKilobyte()
    ensures FormatSize(1023) == "1023.00 B"
  {
    PowersOf1024();
    FormatSizeFrom(1023, 0, 1023.0, 102300, 1023, 0, 0);
    FourDigitDecimals();
  }

  lemma FormatSizeOneKilobyte()
    ensures FormatSize(1024) == "1.00 KB"
  {
    PowersOf1024();
    FormatSizeFrom(1024, 1, 1.0, 100, 1, 0, 0);
  }

  lemma FormatSizeHalfKilobyte()
    ensures FormatSize(1536) == "1.50 KB"
  {
    PowersOf1024();
    FormatSizeFrom(1536, 1, 1.5, 150, 1, 5, 0);
  }

  /** 3200 bytes are exactly 3.125 KB; the tie rounds to the even 3.12. */
  lemma FormatSizeTieToEven()
    ensures FormatSize(3200) == "3.12 KB"
  {
    PowersOf1024();
    FormatSizeFrom(3200, 1, 3.125, 312, 3, 1, 2);
  }

  /** One byte short of a megabyte rounds up to "1024.00 KB". */
  lemma FormatSizeRoundsUp()
    ensures FormatSize(1048575) == "1024.00 KB"
  {
    PowersOf1024();
    assert 1048575 as real / 1024 as real == 1023.9990234375;
    assert 1023.9990234375 * 100.0 == 102399.90234375;
    FormatSizeFrom(1048575, 1, 1023.9990234375, 102400, 1024, 0, 0);
    FourDigitDecimals();
  }

  lemma FormatSizeOneMegabyte()
    ensures FormatSize(1048576) == "1.00 MB"
  {
    PowersOf1024();
    FormatSizeFrom(1048576, 2, 1.0, 100, 1, 0, 0);
  }
}
