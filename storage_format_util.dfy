/** `StorageFormatUtil.formatSize`: a size given in kilobytes printed with two decimals and
    one of the suffixes K, M, G, T. The size is divided by 1024, 2^20 and 2^30; the first
    quotient strictly above 1, tried from T down to M, is printed, and otherwise the size
    itself with "K". `DecimalFormat("0.00")` rounds the quotient to hundredths, ties to the
    even neighbour. Dividing by a power of two is exact, so the quotient is the rational
    `size / divisor`, and the model works on whole hundredths. */
module StorageFormatUtil {
  import opened Wrappers
  import opened JavaLang

  const KIB: int := 1024
  const MIB: int := 1048576
  const GIB: int := 1073741824

  /** The divisor each suffix stands for; the K branch prints the size undivided. */
  function Divisor(suffix: char): (d: int)
    ensures d >= 1
  {
    match suffix
    case 'T' => GIB
    case 'G' => MIB
    case 'M' => KIB
    case _ => 1
  }

  // ---------------------------------------------------------------- HALF_EVEN rounding

  /** `num / den` rounded to a whole number, a tie going to the even neighbour. */
  function HalfEven(num: int, den: int): (r: int)
    requires den > 0
    ensures 2 * (num - r * den) <= den && 2 * (r * den - num) <= den
    ensures 2 * (num - r * den) == den || 2 * (r * den - num) == den ==> r % 2 == 0
    ensures num >= 0 ==> r >= 0
  {
    var q := num / den;
    var rem := num % den;
    assert num == q * den + rem && 0 <= rem < den;
    assert (q + 1) * den == q * den + den;
    if 2 * rem < den then q
    else if 2 * rem > den then q + 1
    else if q % 2 == 0 then q
    else q + 1
  }

  /** The contract of `HalfEven` singles out its result: no other whole number is as near
      to `num / den` and even when there is a tie. */
  lemma HalfEvenUnique(num: int, den: int, k: int)
    requires den > 0
    requires 2 * (num - k * den) <= den && 2 * (k * den - num) <= den
    requires 2 * (num - k * den) == den || 2 * (k * den - num) == den ==> k % 2 == 0
    ensures k == HalfEven(num, den)
  {
    NearestUnique(num, den, HalfEven(num, den), k);
  }

  /** Whole numbers `r` and `k` that are both within half of `num / den`, each even when
      exactly half away, are equal. */
  lemma NearestUnique(num: int, den: int, r: int, k: int)
    requires den > 0
    requires 2 * (num - r * den) <= den && 2 * (r * den - num) <= den
    requires 2 * (num - r * den) == den || 2 * (r * den - num) == den ==> r % 2 == 0
    requires 2 * (num - k * den) <= den && 2 * (k * den - num) <= den
    requires 2 * (num - k * den) == den || 2 * (k * den - num) == den ==> k % 2 == 0
    ensures r == k
  {
    var a := num - k * den;
    var b := num - r * den;
    var d := r - k;
    assert d * den == a - b by {
      assert d * den == r * den - k * den;
    }
    SmallFactor(d, den);
    UnitFactor(d, den);
    NoTwoNearest(a, b, den, r, k);
  }

  /** Two whole numbers one apart cannot both be nearest with an even tie-break: their
      distances `a` and `b` (in units of `1 / den`) would both be halves, of opposite sign. */
  lemma NoTwoNearest(a: int, b: int, den: int, r: int, k: int)
    requires den > 0
    requires 2 * a <= den && -2 * a <= den && 2 * b <= den && -2 * b <= den
    requires 2 * a == den || -2 * a == den ==> k % 2 == 0
    requires 2 * b == den || -2 * b == den ==> r % 2 == 0
    requires -1 <= r - k <= 1
    requires r - k == 1 ==> a - b == den
    requires r - k == -1 ==> b - a == den
    ensures r == k
  {
  }

  /** A multiple of a positive number lying within that number of 0 has a factor between
      -1 and 1. */
  lemma SmallFactor(d: int, den: int)
    requires den > 0 && -den <= d * den <= den
    ensures -1 <= d <= 1
  {
    if d >= 2 {
      MulMonotone(2, d, den);
    }
    if d <= -2 {
      MulMonotone(2, -d, den);
    }
  }

  lemma UnitFactor(d: int, den: int)
    ensures d == 1 ==> d * den == den
    ensures d == -1 ==> d * den == -den
  {
  }

  lemma MulMonotone(x: int, y: int, c: int)
    requires x <= y && c >= 0
    ensures x * c <= y * c
  {
  }

  /** Dividing by 1 leaves nothing to round. */
  lemma HalfEvenByOne(num: int)
    ensures HalfEven(num, 1) == num
  {
  }

  // ---------------------------------------------------------------- the "0.00" pattern

  /** A count of hundredths printed with at least one integer digit and exactly two fraction
      digits. */
  function TwoDecimals(h: nat): (r: string)
    ensures |r| >= 4 && r[|r| - 3] == '.'
    ensures r[..|r| - 3] == IntToString(h / 100)
    ensures AllDigits(r[|r| - 2..]) && DigitsValue(r[|r| - 2..]) == h % 100
  {
    var fraction := [DigitChar(h % 100 / 10), DigitChar(h % 10)];
    var r := IntToString(h / 100) + "." + fraction;
    assert r[..|r| - 3] == IntToString(h / 100);
    assert r[|r| - 2..] == fraction;
    TwoDigitsValue(h % 100 / 10, h % 10);
    r
  }

  /** Two digits denote ten times the first plus the second. */
  lemma TwoDigitsValue(a: int, b: int)
    requires 0 <= a < 10 && 0 <= b < 10
    ensures DigitsValue([DigitChar(a), DigitChar(b)]) == 10 * a + b
  {
    var s := [DigitChar(a), DigitChar(b)];
    assert s[..1] == [DigitChar(a)];
    assert [DigitChar(a)][..0] == [];
    assert DigitsValue([DigitChar(a)]) == a;
  }

  // ---------------------------------------------------------------- formatSize

  /** `formatSize`: T when size / 2^30 > 1, else G when size / 2^20 > 1, else M when
      size / 1024 > 1, each with the quotient rounded to hundredths; otherwise the size
      itself, a whole number, with ".00" and "K". */
  function FormatSize(size: Long): (r: string)
    ensures |r| >= 5 && r[|r| - 4] == '.' && IsDigit(r[|r| - 3]) && IsDigit(r[|r| - 2])
    ensures r[|r| - 1] == 'T' <==> size > GIB
    ensures r[|r| - 1] == 'G' <==> MIB < size <= GIB
    ensures r[|r| - 1] == 'M' <==> KIB < size <= MIB
    ensures r[|r| - 1] == 'K' <==> size <= KIB
  {
    if size > GIB then Suffixed(TwoDecimals(HalfEven(size * 100, GIB)), 'T')
    else if size > MIB then Suffixed(TwoDecimals(HalfEven(size * 100, MIB)), 'G')
    else if size > KIB then Suffixed(TwoDecimals(HalfEven(size * 100, KIB)), 'M')
    else Suffixed(IntToString(size) + ".00", 'K')
  }

  /** A number with two decimals and its suffix. */
  function Suffixed(number: string, suffix: char): (r: string)
    requires |number| >= 4 && number[|number| - 3] == '.'
    requires IsDigit(number[|number| - 2]) && IsDigit(number[|number| - 1])
    ensures |r| == |number| + 1 && r[..|r| - 1] == number && r[|r| - 1] == suffix
    ensures r[|r| - 4] == '.' && IsDigit(r[|r| - 3]) && IsDigit(r[|r| - 2])
  {
    number + [suffix]
  }

  /** What is printed reads back as the size divided by the suffix's divisor (1 for K), in
      whole hundredths rounded half-even (so within half a hundredth of the exact quotient,
      an exact half going to an even last digit): `Long.parseLong` of the integer digits
      gives the whole part and the two fraction digits the rest. */
  lemma FormatSizeReadBack(size: Long)
    ensures var r := FormatSize(size);
      var h := HalfEven(size * 100, Divisor(r[|r| - 1]));
      && ParseLong(r[..|r| - 4]) == Some(h / 100)
      && AllDigits(r[|r| - 3..|r| - 1]) && DigitsValue(r[|r| - 3..|r| - 1]) == h % 100
  {
    if size > GIB {
      DividedReadBack(size, GIB, 'T');
    } else if size > MIB {
      DividedReadBack(size, MIB, 'G');
    } else if size > KIB {
      DividedReadBack(size, KIB, 'M');
    } else {
      KiloReadBack(size);
    }
  }

  /** The T, G and M branches read back. */
  lemma DividedReadBack(size: Long, d: int, suffix: char)
    requires size > 0 && d >= 1024
    ensures var h := HalfEven(size * 100, d);
      var r := Suffixed(TwoDecimals(h), suffix);
      && ParseLong(r[..|r| - 4]) == Some(h / 100)
      && AllDigits(r[|r| - 3..|r| - 1]) && DigitsValue(r[|r| - 3..|r| - 1]) == h % 100
  {
    var h := HalfEven(size * 100, d);
    var number := TwoDecimals(h);
    var r := Suffixed(number, suffix);
    assert r[..|r| - 4] == number[..|number| - 3];
    assert r[|r| - 3..|r| - 1] == number[|number| - 2..];
    HundredthsInLong(size, d);
    ParseLongRoundTrip(h / 100);
  }

  /** The K branch reads back as the size itself. */
  lemma KiloReadBack(size: Long)
    ensures var r := Suffixed(IntToString(size) + ".00", 'K');
      && ParseLong(r[..|r| - 4]) == Some(size)
      && AllDigits(r[|r| - 3..|r| - 1]) && DigitsValue(r[|r| - 3..|r| - 1]) == 0
  {
    var number := IntToString(size) + ".00";
    var r := Suffixed(number, 'K');
    assert r[..|r| - 4] == IntToString(size);
    assert r[|r| - 3..|r| - 1] == "00";
    assert "00"[..1] == "0" && "0"[..0] == "";
    ParseLongRoundTrip(size);
  }

  /** For a divisor of at least 1024 the whole part of the rounded quotient of a positive
      `long` is a `long` again. */
  lemma HundredthsInLong(size: Long, d: int)
    requires size > 0 && d >= 1024
    ensures 0 <= HalfEven(size * 100, d) / 100 <= LONG_MAX
  {
    WholePartBound(size, d, HalfEven(size * 100, d));
  }

  /** A count of hundredths within half a unit of `100 * size / d`, for `d` above 1, is at
      most `100 * size`. */
  lemma WholePartBound(size: int, d: int, h: int)
    requires size > 0 && d >= 2 && 2 * (h * d - size * 100) <= d
    ensures h <= 100 * size
  {
    if h > 100 * size {
      MulMonotone(100 * size + 1, h, d);
      MulMonotone(1, d, 100 * size);
    }
  }

  // ---------------------------------------------------------------- examples

  /** The K fallback prints the undivided size: 500, 0 and -5 give "500.00K", "0.00K" and
      "-5.00K"; 1024 is not above 1024 and gives "1024.00K". */
  lemma FormatSizeKiloExamples()
    ensures FormatSize(500) == "500.00K"
    ensures FormatSize(0) == "0.00K"
    ensures FormatSize(-5) == "-5.00K"
    ensures FormatSize(1024) == "1024.00K"
  {
    FormatSize500();
    FormatSize0();
    FormatSizeMinus5();
    FormatSize1024();
  }

  lemma FormatSize500()
    ensures FormatSize(500) == "500.00K"
  {
    assert NatToString(5) == "5" && NatToString(50) == "50" && NatToString(500) == "500";
  }

  lemma FormatSize0()
    ensures FormatSize(0) == "0.00K"
  {
    assert NatToString(0) == "0";
  }

  lemma FormatSizeMinus5()
    ensures FormatSize(-5) == "-5.00K"
  {
    assert NatToString(5) == "5";
  }

  lemma FormatSize1024()
    ensures FormatSize(1024) == "1024.00K"
  {
    assert NatToString(1) == "1" && NatToString(10) == "10" && NatToString(102) == "102";
    assert NatToString(1024) == "1024";
  }

  /** Exact powers fall to the lower suffix, the comparisons being strict: 2^20 gives
      "1024.00M", 2^30 gives "1024.00G", while 2048 gives "2.00M". */
  lemma FormatSizePowerExamples()
    ensures FormatSize(1048576) == "1024.00M"
    ensures FormatSize(1073741824) == "1024.00G"
    ensures FormatSize(2048) == "2.00M"
  {
    FormatSizeMebi();
    FormatSizeGibi();
    FormatSize2048();
  }

  lemma FormatSizeMebi()
    ensures FormatSize(1048576) == "1024.00M"
  {
    HalfEvenUnique(1048576 * 100, KIB, 102400);
    assert NatToString(1) == "1" && NatToString(10) == "10" && NatToString(102) == "102";
    assert NatToString(1024) == "1024";
  }

  lemma FormatSizeGibi()
    ensures FormatSize(1073741824) == "1024.00G"
  {
    HalfEvenUnique(1073741824 * 100, MIB, 102400);
    assert NatToString(1) == "1" && NatToString(10) == "10" && NatToString(102) == "102";
    assert NatToString(1024) == "1024";
  }

  lemma FormatSize2048()
    ensures FormatSize(2048) == "2.00M"
  {
    HalfEvenUnique(2048 * 100, KIB, 200);
    assert NatToString(2) == "2";
  }

  /** Ties go to the even hundredth: 1152 / 1024 = 1.125 gives "1.12M" and
      1408 / 1024 = 1.375 gives "1.38M". */
  lemma FormatSizeHalfEvenExamples()
    ensures FormatSize(1152) == "1.12M"
    ensures FormatSize(1408) == "1.38M"
  {
    FormatSize1152();
    FormatSize1408();
  }

  lemma FormatSize1152()
    ensures FormatSize(1152) == "1.12M"
  {
    HalfEvenUnique(1152 * 100, KIB, 112);
    assert NatToString(1) == "1";
  }

  lemma FormatSize1408()
    ensures FormatSize(1408) == "1.38M"
  {
    HalfEvenUnique(1408 * 100, KIB, 138);
    assert NatToString(1) == "1";
  }
}
