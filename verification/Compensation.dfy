/**
 The compensation of ms5803_readPressureAndTemp in pressure.c: where C defines it, it is of the first order, in
 64-bit arithmetic that divides toward zero.
 */
module Compensation {
  import opened Bytes

  type int64 = x: int | -0x8000_0000_0000_0000 <= x < 0x8000_0000_0000_0000
  type word16 = x: int | 0 <= x < 0x1_0000
  type adc24 = x: int | 0 <= x < 0x100_0000

  /** The six coefficients in the PROM. */
  datatype Coefficients = Coefficients(c1: word16, c2: word16, c3: word16, c4: word16, c5: word16, c6: word16)

  /** Division of C, toward zero. */
  function Quotient(a: int, b: int): int
    requires b > 0
  {
    if a >= 0 then a / b else -((-a) / b)
  }

  lemma QuotientIsMonotone(a: int, b: int, d: int)
    requires d > 0 && a <= b
    ensures Quotient(a, d) <= Quotient(b, d)
  {
    if 0 <= a {
      DivisionIsMonotone(a, b, d);
    } else if b < 0 {
      DivisionIsMonotone(-b, -a, d);
    } else {
      DivisionIsMonotone(0, b, d);
      DivisionIsMonotone(0, -a, d);
    }
  }

  lemma DivisionIsMonotone(a: nat, b: nat, d: int)
    requires d > 0 && a <= b
    ensures 0 <= a / d <= b / d
  {
    var x, y := a / d, b / d;
    var r, s := a % d, b % d;
    assert a == x * d + r && b == y * d + s;
    Larger(x, y, d, r, s);
  }

  lemma Larger(x: int, y: int, d: int, r: int, s: int)
    requires d > 0 && 0 <= r < d && 0 <= s < d && 0 <= x * d + r <= y * d + s
    ensures 0 <= x <= y
  {
    MultipleBound(x - y, d);
    MultipleBound(x, d);
    assert (x - y) * d == x * d - y * d;
  }

  lemma QuotientIsNear(a: int, d: int)
    requires d > 0
    ensures -d < a - d * Quotient(a, d) < d
  {
  }

  lemma ProductBounds(a: int, b: int, m: int, n: int)
    requires -m <= a <= m && 0 <= b <= n
    ensures -(m * n) <= a * b <= m * n && (a >= 0 ==> a * b >= 0)
  {
    assert (m - a) * b >= 0 && (m + a) * b >= 0;
    assert m * b + m * (n - b) == m * n;
    assert m * (n - b) >= 0;
  }

  /** The difference to the reference temperature, the offset and the sensitivity at this temperature. */
  function Difference(temp: adc24, c: Coefficients): int32 { temp - c.c5 * 0x100 }

  function Offset(dT: int, c: Coefficients): int { c.c2 * 0x1_0000 + Quotient(dT * c.c4, 0x80) }

  function Sensitivity(dT: int, c: Coefficients): int { c.c1 * 0x8000 + Quotient(c.c3 * dT, 0x100) }

  function Pressure(pressure: adc24, dT: int, c: Coefficients): int {
    Quotient(Quotient(pressure * Sensitivity(dT, c), 0x20_0000) - Offset(dT, c), 0x8000)
  }

  function Temperature(dT: int, c: Coefficients): int { 2000 + Quotient(dT * c.c6, 0x80_0000) }

  /** With 16-bit coefficients and 24-bit conversions every intermediate value stays far inside 64 bits. */
  lemma ValuesFit(pressure: adc24, dT: int, c: Coefficients)
    requires -0x100_0000 < dT < 0x100_0000
    ensures -0x100_0000_0000 < dT * c.c4 < 0x100_0000_0000 && -0x100_0000_0000 < c.c3 * dT < 0x100_0000_0000
    ensures -0x100_0000_0000 < dT * c.c6 < 0x100_0000_0000
    ensures -0x4_0000_0000 < Offset(dT, c) < 0x4_0000_0000 && -0x2_0000_0000 < Sensitivity(dT, c) < 0x2_0000_0000
    ensures -0x200_0000_0000_0000 < pressure * Sensitivity(dT, c) < 0x200_0000_0000_0000
    ensures -0x2_1000 < Temperature(dT, c) < 0x2_1000
  {
    ProductBounds(dT, c.c4, 0xFF_FFFF, 0xFFFF);
    ProductBounds(dT, c.c3, 0xFF_FFFF, 0xFFFF);
    ProductBounds(dT, c.c6, 0xFF_FFFF, 0xFFFF);
    QuotientBounds(dT * c.c4, 0x80, 0x2_0000_0000);
    QuotientBounds(c.c3 * dT, 0x100, 0x1_0000_0000);
    QuotientBounds(dT * c.c6, 0x80_0000, 0x2_0000);
    ProductBounds(Sensitivity(dT, c), pressure, 0x1_FFFF_FFFF, 0xFF_FFFF);
  }

  lemma QuotientBounds(a: int, d: int, n: int)
    requires d > 0 && -(n * d) <= a <= n * d
    ensures -n <= Quotient(a, d) <= n
  {
    QuotientIsNear(a, d);
    var q := Quotient(a, d);
    MultipleBound(q - n, d);
    MultipleBound(-n - q, d);
    assert (q - n) * d == q * d - n * d && (-n - q) * d == -(n * d) - q * d;
  }

  /**
   The arithmetic of ms5803_readPressureAndTemp from the two conversions on, no value of which leaves its type.
   Below 20 degrees it shifts 1 by 31 bits, which C does not define for an int: there the model stops. The
   correction for high temperatures is computed and never applied. The results are those of the first order
   formulas over the reals, but for the rounding of the divisions: less than 1.0004 units of the pressure, and
   less than one unit of the temperature.
   */
  method Compensate(uncompPressure: adc24, uncompTemp: adc24, c: Coefficients)
    returns (defined: bool, pressure: int64, temp: int64)
    ensures defined <==> (uncompTemp - 256 * c.c5) * c.c6 > -0x80_0000
    ensures defined <==> temp >= 2000
    ensures defined ==> pressure == Pressure(uncompPressure, Difference(uncompTemp, c), c)
    ensures temp == Temperature(Difference(uncompTemp, c), c)
    ensures var dT := (uncompTemp - 256 * c.c5) as real;
      var sensitivity := c.c1 as real * 32768.0 + c.c3 as real * dT / 256.0;
      var offset := c.c2 as real * 65536.0 + dT * c.c4 as real / 128.0;
      var exact := uncompPressure as real * sensitivity / 2097152.0 - offset;
      defined ==> -32778.0 < 32768.0 * pressure as real - exact < 32778.0
    ensures var dT := (uncompTemp - 256 * c.c5) as real;
      -1.0 < temp as real - (2000.0 + dT * c.c6 as real / 8388608.0) < 1.0
  {
    hide Quotient, Pressure, Offset, Sensitivity, Temperature;
    var dT: int32 := uncompTemp - c.c5 * 0x100;
    ValuesFit(uncompPressure, dT, c);
    PressureIsNear(uncompPressure, dT, c);
    TemperatureIsNear(dT, c);
    PartsAre(uncompPressure, dT, c);
    var off: int64 := c.c2 * 0x1_0000 + Quotient(dT * c.c4, 0x80);
    var sens: int64 := c.c1 * 0x8000 + Quotient(c.c3 * dT, 0x100);
    temp := 2000 + Quotient(dT * c.c6, 0x80_0000);
    WarmIsNotBelow(dT * c.c6);
    var sens2: int64 := 0;
    if temp < 2000 {
      return false, 0, temp;
    } else if temp >= 4500 {
      ProductBounds(temp - 4500, temp - 4500, 0x2_1000, 0x2_1000);
      QuotientBounds((temp - 4500) * (temp - 4500), 8, 0x8842_0000);
      sens2 := sens2 - Quotient((temp - 4500) * (temp - 4500), 8);
    }
    defined := true;
    var product: int64 := uncompPressure * sens;
    QuotientBounds(product, 0x20_0000, 0x10_0000_0000);
    var scaled: int64 := Quotient(product, 0x20_0000);
    var difference: int64 := scaled - off;
    QuotientBounds(difference, 0x8000, 0x40_0000);
    pressure := Quotient(difference, 0x8000);
  }

  lemma PartsAre(pressure: adc24, dT: int, c: Coefficients)
    ensures Offset(dT, c) == c.c2 * 0x1_0000 + Quotient(dT * c.c4, 0x80)
    ensures Sensitivity(dT, c) == c.c1 * 0x8000 + Quotient(c.c3 * dT, 0x100)
    ensures Temperature(dT, c) == 2000 + Quotient(dT * c.c6, 0x80_0000)
    ensures Pressure(pressure, dT, c) ==
      Quotient(Quotient(pressure * Sensitivity(dT, c), 0x20_0000) - Offset(dT, c), 0x8000)
  {
  }

  lemma WarmIsNotBelow(a: int)
    ensures a > -0x80_0000 <==> Quotient(a, 0x80_0000) >= 0
  {
  }

  // ---------- accuracy ----------

  /** A quotient in the reals, and how far the one of C is from it. */
  lemma RealQuotient(a: int, d: int)
    requires d > 0
    ensures -1.0 < Quotient(a, d) as real - a as real / d as real < 1.0
  {
    hide Quotient;
    QuotientIsNear(a, d);
    var q := Quotient(a, d);
    assert (d * q) as real == d as real * q as real;
    RealScaled(a as real, q as real, d as real);
  }

  lemma RealScaled(a: real, q: real, d: real)
    requires d > 0.0 && -d < a - d * q < d
    ensures -1.0 < q - a / d < 1.0
  {
    var e := q - a / d;
    assert d * e == d * q - a;
    RealMultiple(d, e);
  }

  lemma RealMultiple(d: real, e: real)
    requires d > 0.0
    ensures e >= 1.0 ==> d * e >= d
    ensures e <= -1.0 ==> d * e <= -d
  {
    if e >= 1.0 {
      NotNegative(d, e - 1.0);
    } else if e <= -1.0 {
      NotNegative(d, -1.0 - e);
    }
  }

  lemma RealProduct(a: int, b: int)
    ensures (a * b) as real == a as real * b as real
  {
  }

  /** A factor that is off by less than one makes the product off by less than the other factor. */
  lemma ErrorTimes(p: real, x: real, y: real, m: real)
    requires 0.0 <= p <= m && -1.0 <= x - y <= 1.0
    ensures -m <= p * x - p * y <= m
  {
    var e := x - y;
    assert p * x - p * y == p * e;
    NotNegative(p, 1.0 - e);
    NotNegative(p, 1.0 + e);
    assert p * (1.0 - e) == p - p * e && p * (1.0 + e) == p + p * e;
  }

  lemma NotNegative(a: real, b: real)
    requires a >= 0.0 && b >= 0.0
    ensures a * b >= 0.0
  {
  }

  /** The errors of the divisions add up. */
  lemma ErrorsAdd(product: real, exact: real, scaled: int, off: int, offset: real, r: int)
    requires -16777216.0 <= product - exact <= 16777216.0
    requires -1.0 < scaled as real - product / 2097152.0 < 1.0 && -1.0 < off as real - offset < 1.0
    requires -0x8000 < scaled - off - 0x8000 * r < 0x8000
    ensures -32778.0 < 32768.0 * r as real - (exact / 2097152.0 - offset) < 32778.0
  {
  }

  lemma PressureIsNear(pressure: adc24, dT: int, c: Coefficients)
    ensures var t := dT as real;
      var sensitivity := c.c1 as real * 32768.0 + c.c3 as real * t / 256.0;
      var offset := c.c2 as real * 65536.0 + t * c.c4 as real / 128.0;
      var exact := pressure as real * sensitivity / 2097152.0 - offset;
      -32778.0 < 32768.0 * Pressure(pressure, dT, c) as real - exact < 32778.0
  {
    hide Quotient, Pressure, Offset, Sensitivity, Temperature;
    PartsAre(pressure, dT, c);
    RealProduct(dT, c.c4);
    RealProduct(c.c3, dT);
    RealQuotient(dT * c.c4, 0x80);
    RealQuotient(c.c3 * dT, 0x100);
    var sens, off := Sensitivity(dT, c), Offset(dT, c);
    var sensitivity := c.c1 as real * 32768.0 + c.c3 as real * dT as real / 256.0;
    RealProduct(pressure, sens);
    ErrorTimes(pressure as real, sens as real, sensitivity, 16777216.0);
    RealQuotient(pressure * sens, 0x20_0000);
    var scaled := Quotient(pressure * sens, 0x20_0000);
    QuotientIsNear(scaled - off, 0x8000);
    var offset := c.c2 as real * 65536.0 + dT as real * c.c4 as real / 128.0;
    var result := Pressure(pressure, dT, c);
    ErrorsAdd((pressure * sens) as real, pressure as real * sensitivity, scaled, off, offset, result);
  }

  lemma TemperatureIsNear(dT: int, c: Coefficients)
    ensures -1.0 < Temperature(dT, c) as real - (2000.0 + dT as real * c.c6 as real / 8388608.0) < 1.0
  {
    hide Quotient, Temperature;
    PartsAre(0, dT, c);
    RealProduct(dT, c.c6);
    RealQuotient(dT * c.c6, 0x80_0000);
  }

  /** At one temperature a higher conversion never gives a lower pressure, where the sensitivity is not negative. */
  lemma PressureIsMonotone(p: adc24, q: adc24, dT: int, c: Coefficients)
    requires p <= q && Sensitivity(dT, c) >= 0
    ensures Pressure(p, dT, c) <= Pressure(q, dT, c)
  {
    hide Sensitivity, Offset, Quotient;
    var s := Sensitivity(dT, c);
    assert (q - p) * s >= 0;
    QuotientIsMonotone(p * s, q * s, 0x20_0000);
    QuotientIsMonotone(Quotient(p * s, 0x20_0000) - Offset(dT, c), Quotient(q * s, 0x20_0000) - Offset(dT, c), 0x8000);
  }
}
