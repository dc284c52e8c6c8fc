/**
 * `formatFileSize` of the file server (file-server/main.go) and the decimal
 * rendering it relies on: `%d` for a byte count and `%.2f` for a count
 * scaled to KB, MB or GB.
 *
 * The Go code divides `float64(size)` by a power of two, which is exact for
 * sizes below 2^53, and `%.2f` then rounds that exact quotient to the
 * nearest hundredth, an exact half going to the even neighbour.  The model
 * computes the same hundredths with integers.
 */
module SizeFormat {
  import opened Wrappers

  const KiB: nat := 1024
  const MiB: nat := 1024 * 1024
  const GiB: nat := 1024 * 1024 * 1024

  function DigitChar(d: nat): char
    requires d < 10
  {
    ('0' as int + d) as char
  }

  function DigitValue(c: char): Option<nat> {
    if '0' <= c <= '9' then Some(c as int - '0' as int) else None
  }

  /** The decimal digits of `n`, without leading zeros. */
  function NatToDecimal(n: nat): (s: string)
    ensures |s| >= 1
  {
    if n < 10 then [DigitChar(n)] else NatToDecimal(n / 10) + [DigitChar(n % 10)]
  }

  /** `%d`: a minus sign for a negative number, then its digits. */
  function IntToDecimal(i: int): string {
    if i < 0 then "-" + NatToDecimal(-i) else NatToDecimal(i)
  }

  /** The value of a non-empty string of decimal digits. */
  function ParseNat(s: string): Option<nat> {
    if s == [] then None
    else match DigitValue(s[|s| - 1])
      case None => None
      case Some(d) =>
        if |s| == 1 then Some(d)
        else match ParseNat(s[..|s| - 1])
          case None => None
          case Some(v) => Some(v * 10 + d)
  }

  /** The value of an optionally signed decimal integer. */
  function ParseInt(s: string): Option<int> {
    var negative := |s| > 0 && s[0] == '-';
    var digits := ParseNat(if negative then s[1..] else s);
    if digits.None? then None
    else if negative then Some(0 - digits.value)
    else Some(digits.value)
  }

  lemma DigitRoundTrip(d: nat)
    requires d < 10
    ensures DigitValue(DigitChar(d)) == Some(d)
  {
  }

  /** Appending a digit to a decimal numeral multiplies its value by ten and adds the digit. */
  lemma ParseNatSnoc(t: string, c: char)
    requires ParseNat(t).Some? && DigitValue(c).Some?
    ensures ParseNat(t + [c]) == Some(ParseNat(t).value * 10 + DigitValue(c).value)
  {
    var s := t + [c];
    assert s[..|s| - 1] == t;
    assert s[|s| - 1] == c;
  }

  lemma DivMod10(n: nat)
    ensures n == n / 10 * 10 + n % 10 && n % 10 < 10
  {
  }

  /** Reading the digits back gives the number. */
  lemma {:induction false} ParseNatDecimal(n: nat)
    ensures ParseNat(NatToDecimal(n)) == Some(n)
  {
    var d := n % 10;
    DigitRoundTrip(d);
    if n >= 10 {
      var q := n / 10;
      DivMod10(n);
      ParseNatDecimal(q);
      assert NatToDecimal(n) == NatToDecimal(q) + [DigitChar(d)];
      ParseNatSnoc(NatToDecimal(q), DigitChar(d));
    }
  }

  /** Reading `%d` back gives the integer. */
  lemma ParseIntDecimal(i: int)
    ensures ParseInt(IntToDecimal(i)) == Some(i)
  {
    if i < 0 {
      assert IntToDecimal(i) == "-" + NatToDecimal(-i);
      ParseNegative(-i);
    } else {
      var s := NatToDecimal(i);
      assert IntToDecimal(i) == s;
      assert ParseNat(s) == Some(i) by {
        ParseNatDecimal(i);
      }
      assert !(|s| > 0 && s[0] == '-') by {
        FirstIsDigit(i);
      }
    }
  }

  lemma ParseNegative(n: nat)
    requires n > 0
    ensures ParseInt("-" + NatToDecimal(n)) == Some(-(n as int))
  {
    var s := "-" + NatToDecimal(n);
    assert s[1..] == NatToDecimal(n);
    assert ParseNat(s[1..]) == Some(n) by {
      ParseNatDecimal(n);
    }
  }

  lemma {:induction false} FirstIsDigit(n: nat)
    ensures '0' <= NatToDecimal(n)[0] <= '9'
  {
    if n >= 10 {
      FirstIsDigit(n / 10);
    }
  }

  /** A numeral as `%d` writes it: a leading `0` only in `0` itself. */
  predicate NoLeadingZero(s: string) {
    s != [] && (s[0] == '0' ==> s == "0")
  }

  /** Only zero is written with a leading `0`. */
  lemma {:induction false} LeadingZeroOnlyForZero(n: nat)
    ensures NatToDecimal(n)[0] == '0' <==> n == 0
    ensures NoLeadingZero(NatToDecimal(n))
  {
    if n >= 10 {
      LeadingZeroOnlyForZero(n / 10);
      assert NatToDecimal(n)[0] == NatToDecimal(n / 10)[0];
    }
  }

  function Dist(a: int, b: int): nat {
    if a < b then b - a else a - b
  }

  /**
   * `num / den` rounded to the nearest integer, an exact half going to the
   * even neighbour.
   */
  function RoundHalfEven(num: nat, den: nat): (r: nat)
    requires den > 0
    ensures 2 * Dist(r * den, num) <= den
    ensures 2 * Dist(r * den, num) == den ==> r % 2 == 0
  {
    var q, rem := num / den, num % den;
    var r := if 2 * rem > den || (2 * rem == den && q % 2 == 1) then q + 1 else q;
    RoundingChoice(num, den, q, rem, r);
    r
  }

  /** Rounding up exactly when the remainder is past half way (or at half way from an odd quotient). */
  lemma RoundingChoice(num: nat, den: nat, q: nat, rem: nat, r: nat)
    requires den > 0 && q == num / den && rem == num % den
    requires r == if 2 * rem > den || (2 * rem == den && q % 2 == 1) then q + 1 else q
    ensures 2 * Dist(r * den, num) <= den
    ensures 2 * Dist(r * den, num) == den ==> r % 2 == 0
  {
    assert num == q * den + rem;
    assert (q + 1) * den == q * den + den;
  }

  /** Hundredths written with two decimals, as `%.2f` prints them. */
  function TwoDecimals(h: nat): string {
    NatToDecimal(h / 100) + "." + [DigitChar(h % 100 / 10), DigitChar(h % 10)]
  }

  /** The hundredths a string with two decimals stands for. */
  function ReadTwoDecimals(s: string): Option<nat> {
    if |s| < 4 || s[|s| - 3] != '.' then None
    else match (ParseNat(s[..|s| - 3]), ParseNat(s[|s| - 2..]))
      case (Some(whole), Some(frac)) => Some(whole * 100 + frac)
      case _ => None
  }

  lemma TwoDecimalsRoundTrip(h: nat)
    ensures ReadTwoDecimals(TwoDecimals(h)) == Some(h)
  {
    var s := TwoDecimals(h);
    var w := NatToDecimal(h / 100);
    assert s[..|s| - 3] == w;
    ParseNatDecimal(h / 100);
    DigitRoundTrip(h % 100 / 10);
    DigitRoundTrip(h % 10);
    var f := s[|s| - 2..];
    assert f == [DigitChar(h % 100 / 10), DigitChar(h % 10)];
    assert f[..1] == [DigitChar(h % 100 / 10)];
    assert ParseNat(f) == Some(h % 100 / 10 * 10 + h % 10);
  }

  /** `size / unit` printed with two decimals. */
  function Scaled(size: nat, unit: nat): string
    requires unit > 0
  {
    TwoDecimals(RoundHalfEven(size * 100, unit))
  }

  /** `formatFileSize`: bytes below 1 KiB, otherwise KB, MB or GB with two decimals. */
  function FormatFileSize(size: int): string {
    if size < 1024 then IntToDecimal(size) + " B"
    else if size < MiB then Scaled(size, KiB) + " KB"
    else if size < GiB then Scaled(size, MiB) + " MB"
    else Scaled(size, GiB) + " GB"
  }

  /**
   * Below 1 KiB, negative sizes included, the text is the exact count
   * followed by ` B`: a minus sign exactly for a negative size, then digits
   * without a leading zero.
   */
  lemma SmallSizeExact(size: int)
    requires size < 1024
    ensures var r := FormatFileSize(size);
      && |r| > 2 && r[|r| - 2..] == " B" && ParseInt(r[..|r| - 2]) == Some(size)
      && (r[0] == '-' <==> size < 0)
      && NoLeadingZero(if size < 0 then r[1..|r| - 2] else r[..|r| - 2])
  {
    var r := FormatFileSize(size);
    assert r[..|r| - 2] == IntToDecimal(size);
    ParseIntDecimal(size);
    if size < 0 {
      assert r[1..|r| - 2] == NatToDecimal(-size);
      LeadingZeroOnlyForZero(-size);
    } else {
      FirstIsDigit(size);
      LeadingZeroOnlyForZero(size);
    }
  }

  /**
   * From 1 KiB up, the unit is chosen by thresholds on the size and the
   * number shown is `size / unit` to the nearest hundredth (an exact half
   * shown as the even neighbour), its whole part written without a leading
   * zero.
   */
  lemma ScaledSizeRounded(size: int)
    requires size >= 1024
    ensures var r := FormatFileSize(size);
      var unit := if size < MiB then KiB else if size < GiB then MiB else GiB;
      var suffix := if size < MiB then " KB" else if size < GiB then " MB" else " GB";
      && |r| > 6 && r[|r| - 3..] == suffix
      && r[0] != '0'
      && ReadTwoDecimals(r[..|r| - 3]).Some?
      && var h := ReadTwoDecimals(r[..|r| - 3]).value;
         && 2 * Dist(h * unit, 100 * size) <= unit
         && (2 * Dist(h * unit, 100 * size) == unit ==> h % 2 == 0)
  {
    var unit := if size < MiB then KiB else if size < GiB then MiB else GiB;
    var h := RoundHalfEven(size * 100, unit);
    var r := FormatFileSize(size);
    assert r[..|r| - 3] == TwoDecimals(h);
    TwoDecimalsRoundTrip(h);
    AtLeastOneUnit(h, unit, size);
    LeadingZeroOnlyForZero(h / 100);
    assert r[0] == NatToDecimal(h / 100)[0];
  }

  /** A size of at least one unit shows at least `1.00`: the whole part is not `0`. */
  lemma AtLeastOneUnit(h: nat, unit: nat, size: nat)
    requires unit > 0 && size >= unit && 2 * Dist(h * unit, 100 * size) <= unit
    ensures h >= 100
  {
    if h < 100 {
      FewerUnits(h, unit, size);
      assert false;
    }
  }

  /** Fewer than 100 units fall short of `100 * size` by at least one unit. */
  lemma FewerUnits(h: nat, unit: nat, size: nat)
    requires h < 100 && size >= unit
    ensures 100 * size - h * unit >= unit
  {
    var below := 99 - h;
    assert 99 * unit == h * unit + below * unit;
  }

  /** Sample sizes below 1 KiB. */
  lemma ByteExamples()
    ensures FormatFileSize(500) == "500 B"
    ensures FormatFileSize(-5) == "-5 B"
    ensures FormatFileSize(1023) == "1023 B"
  {
  }

  /** Sample sizes in the KB tier, including an exact half (1152 bytes is 1.125 KB). */
  lemma KilobyteExamples()
    ensures FormatFileSize(1024) == "1.00 KB"
    ensures FormatFileSize(2048) == "2.00 KB"
    ensures FormatFileSize(1152) == "1.12 KB"
  {
    assert RoundHalfEven(102400, KiB) == 100;
    assert TwoDecimals(100) == "1.00";
    assert RoundHalfEven(204800, KiB) == 200;
    assert TwoDecimals(200) == "2.00";
    assert RoundHalfEven(115200, KiB) == 112;
    assert TwoDecimals(112) == "1.12";
  }

  /** One byte short of 1 MiB stays in the KB tier although it rounds to 1024.00. */
  lemma TierBoundaryExample()
    ensures FormatFileSize(1048575) == "1024.00 KB"
  {
    assert RoundHalfEven(104857500, KiB) == 102400;
    assert NatToDecimal(1024) == "1024";
    assert TwoDecimals(102400) == "1024.00";
  }

  /** Sample sizes in the MB and GB tiers. */
  lemma LargeExamples()
    ensures FormatFileSize(5 * 1024 * 1024) == "5.00 MB"
    ensures FormatFileSize(3 * 1024 * 1024 * 1024) == "3.00 GB"
  {
    assert RoundHalfEven(500 * MiB, MiB) == 500;
    assert TwoDecimals(500) == "5.00";
    assert RoundHalfEven(300 * GiB, GiB) == 300;
    assert TwoDecimals(300) == "3.00";
  }
}
