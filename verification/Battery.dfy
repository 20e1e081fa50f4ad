/** The battery level by interpolation on a discharge curve, in the unsigned arithmetic the code uses. */
module Battery {
  import opened Bytes

  type uint16 = x: int | 0 <= x < 0x1_0000

  /** One point of a discharge curve: the voltage in mV and the remaining life in parts per ten thousand. */
  datatype Point = Point(pptt: uint16, mV: uint16)

  /** A discharge curve: both fields never increase, and the last point has no life left. */
  ghost predicate Curve(c: seq<Point>) {
    && |c| > 0 && c[|c| - 1].pptt == 0
    && forall i, j :: 0 <= i < j < |c| ==> c[i].pptt >= c[j].pptt && c[i].mV >= c[j].mV
  }

  // ---------------------------------------------------------------- the level as a function

  /** `k` is where the search stops: the first point at or below `v`, or without life. */
  ghost predicate StopsAt(v: uint32, c: seq<Point>, k: nat) {
    && k < |c| && (v >= c[k].mV || c[k].pptt == 0)
    && forall i :: 0 <= i < k ==> v < c[i].mV && c[i].pptt > 0
  }

  function Search(v: uint32, c: seq<Point>, k: nat): (r: nat)
    requires k < |c| && c[|c| - 1].pptt == 0
    requires forall i :: 0 <= i < k ==> v < c[i].mV && c[i].pptt > 0
    ensures StopsAt(v, c, r)
    decreases |c| - k
  {
    if v >= c[k].mV || c[k].pptt == 0 then k else Search(v, c, k + 1)
  }

  /** The line from `lo` to `hi`, rounded down, at `v`. */
  function Line(lo: Point, hi: Point, v: int): int
    requires hi.mV > lo.mV
  {
    lo.pptt + (hi.pptt - lo.pptt) * (v - lo.mV) / (hi.mV - lo.mV)
  }

  /** The level at `v` when the search stops at `k`. */
  function LevelAt(v: uint32, c: seq<Point>, k: nat): int
    requires StopsAt(v, c, k)
  {
    if k == 0 || v < c[k].mV then c[k].pptt else Line(c[k], c[k - 1], v)
  }

  function Level(v: uint32, c: seq<Point>): int
    requires |c| > 0 && c[|c| - 1].pptt == 0
  {
    LevelAt(v, c, Search(v, c, 0))
  }

  lemma StopsOnce(v: uint32, c: seq<Point>, j: nat, k: nat)
    requires StopsAt(v, c, j) && StopsAt(v, c, k)
    ensures j == k
  {}

  // ---------------------------------------------------------------- the line

  lemma QuotientBelow(a: nat, b: nat, d: nat)
    requires d > 0 && b <= d
    ensures 0 <= a * b / d <= a
  {
    ProductMonotone(b, d, a);
    assert a * b == b * a && a * d == d * a;
    WholeQuotient(a, d);
    QuotientMonotone(a * b, a * d, d);
  }

  lemma ProductMonotone(a: nat, b: nat, d: nat)
    requires a <= b
    ensures 0 <= a * d <= b * d
  {
    var rest := b - a;
    assert (a + rest) * d == a * d + rest * d;
  }

  lemma QuotientMonotone(x: nat, y: nat, d: nat)
    requires d > 0 && x <= y
    ensures x / d <= y / d
  {
    var q, r := x / d, y / d;
    assert x == q * d + x % d && y == r * d + y % d;
    assert (r + 1) * d == r * d + d;
    if q > r {
      ProductMonotone(r + 1, q, d);
      assert false;
    }
  }

  lemma LineStaysBetween(lo: Point, hi: Point, v: int)
    requires lo.mV <= v <= hi.mV && lo.mV < hi.mV && lo.pptt <= hi.pptt
    ensures lo.pptt <= Line(lo, hi, v) <= hi.pptt
  {
    QuotientBelow(hi.pptt - lo.pptt, v - lo.mV, hi.mV - lo.mV);
  }

  lemma LineStartsLow(lo: Point, hi: Point)
    requires lo.mV < hi.mV
    ensures Line(lo, hi, lo.mV) == lo.pptt
  {
    var a, d := hi.pptt - lo.pptt, hi.mV - lo.mV;
    assert a * 0 == 0 && 0 / d == 0;
  }

  lemma LineIsMonotone(lo: Point, hi: Point, v: int, w: int)
    requires lo.mV <= v <= w && lo.mV < hi.mV && lo.pptt <= hi.pptt
    ensures Line(lo, hi, v) <= Line(lo, hi, w)
  {
    var a := hi.pptt - lo.pptt;
    ProductMonotone(v - lo.mV, w - lo.mV, a);
    QuotientMonotone(a * (v - lo.mV), a * (w - lo.mV), hi.mV - lo.mV);
  }

  /** The line is the straight chord between the two points, rounded down by less than one unit. */
  lemma LineIsChord(lo: Point, hi: Point, v: int)
    requires lo.mV <= v <= hi.mV && lo.mV < hi.mV && lo.pptt <= hi.pptt
    ensures var span, rise := hi.mV - lo.mV, (hi.pptt - lo.pptt) * (v - lo.mV);
            (Line(lo, hi, v) - lo.pptt) * span <= rise < (Line(lo, hi, v) - lo.pptt) * span + span
  {
    var x, d := (hi.pptt - lo.pptt) * (v - lo.mV), hi.mV - lo.mV;
    ProductMonotone(0, v - lo.mV, hi.pptt - lo.pptt);
    assert Line(lo, hi, v) - lo.pptt == x / d;
    Division(x, d);
  }

  lemma Division(x: nat, d: nat)
    requires d > 0
    ensures 0 <= x - x / d * d < d
  {
    assert x == x / d * d + x % d;
  }

  lemma WholeQuotient(a: nat, d: nat)
    requires d > 0
    ensures a * d / d == a
  {
    var q := a * d / d;
    Division(a * d, d);
    assert (q + 1) * d == q * d + d && (a + 1) * d == a * d + d;
    if q > a { ProductMonotone(a + 1, q, d); assert false; }
    if q < a { ProductMonotone(q + 1, a, d); assert false; }
  }

  // ---------------------------------------------------------------- the level

  /** Inside the curve the level is the chord of its segment, rounded down by less than one unit. */
  lemma LevelIsChord(v: uint32, c: seq<Point>, k: nat)
    requires Curve(c) && 0 < k < |c| && c[k].mV <= v < c[k - 1].mV && c[k - 1].pptt > 0
    ensures var span, rise := c[k - 1].mV - c[k].mV, (c[k - 1].pptt - c[k].pptt) * (v - c[k].mV);
            (Level(v, c) - c[k].pptt) * span <= rise < (Level(v, c) - c[k].pptt) * span + span
  {
    StopsOnce(v, c, k, Search(v, c, 0));
    LineIsChord(c[k], c[k - 1], v);
  }

  /** Between the two points of its segment, and between 0 and the level of the first point. */
  lemma LevelIsBounded(v: uint32, c: seq<Point>, k: nat)
    requires Curve(c) && StopsAt(v, c, k)
    ensures 0 <= c[k].pptt <= LevelAt(v, c, k) <= c[0].pptt
    ensures k > 0 ==> LevelAt(v, c, k) <= c[k - 1].pptt
  {
    if k > 0 && v >= c[k].mV { LineStaysBetween(c[k], c[k - 1], v); }
  }

  /** The level never falls when the voltage rises, also across segment boundaries. */
  lemma LevelIsMonotone(v: uint32, w: uint32, c: seq<Point>)
    requires Curve(c) && v <= w
    ensures Level(v, c) <= Level(w, c)
  {
    var j, k := Search(v, c, 0), Search(w, c, 0);
    LevelIsBounded(v, c, j);
    LevelIsBounded(w, c, k);
    assert k <= j;
    if k == j {
      if k > 0 && v >= c[k].mV { LineIsMonotone(c[k], c[k - 1], v, w); }
    } else {
      assert c[j - 1].pptt <= c[k].pptt;
    }
  }

  /** The level is exact at every point of the curve; of points at the same voltage, at the first. */
  lemma LevelIsExact(c: seq<Point>, i: nat)
    requires Curve(c) && i < |c| && forall j :: 0 <= j < i ==> c[j].mV > c[i].mV
    ensures Level(c[i].mV, c) == c[i].pptt
  {
    var k := Search(c[i].mV, c, 0);
    hide Line;
    if k < i {
      assert c[k].mV > c[i].mV && c[k].pptt == 0;
    } else {
      assert k == i;
      if i > 0 { LineStartsLow(c[i], c[i - 1]); }
    }
  }

  /** The cap: at or above the first point, and below the last one. */
  lemma LevelIsCapped(v: uint32, c: seq<Point>)
    requires Curve(c)
    ensures v >= c[0].mV ==> Level(v, c) == c[0].pptt
    ensures v < c[|c| - 1].mV ==> Level(v, c) == 0
  {
    var k := Search(v, c, 0);
    if v < c[|c| - 1].mV { assert v < c[k].mV && c[k].pptt == 0; }
  }

  // ---------------------------------------------------------------- the code

  /** `a * b` and `a / b` on `uint32_t`. */
  function Mul32(a: uint32, b: uint32): uint32 {
    if a * b < 0x1_0000_0000 then a * b else a * b % 0x1_0000_0000
  }

  function Div32(a: uint32, b: uint32): uint32
    requires b > 0
  {
    DivisionFits(a, b);
    a / b
  }

  lemma DivisionFits(a: nat, b: nat)
    requires b > 0
    ensures 0 <= a / b <= a
  {
    QuotientBelow(a, 1, b);
  }

  /** The product of two differences of 16-bit values fits 32 bits. */
  lemma ProductFits(a: nat, b: nat)
    requires a < 0x1_0000 && b < 0x1_0000
    ensures 0 <= a * b < 0x1_0000_0000
  {
    ProductMonotone(a, 0xFFFF, b);
  }

  /**
   `battery_level_pptt`: the search stays on the curve, the divisor is positive, and the unsigned arithmetic gives the
   level, so it does not wrap.
   */
  method BatteryLevel(v: uint32, c: seq<Point>) returns (level: uint32)
    requires Curve(c)
    ensures level == Level(v, c) && level <= c[0].pptt
  {
    LevelIsBounded(v, c, Search(v, c, 0));
    var k := 0;
    if v >= c[k].mV { return c[k].pptt; }
    while c[k].pptt > 0 && v < c[k].mV
      invariant k < |c|
      invariant forall i :: 0 <= i < k ==> v < c[i].mV && c[i].pptt > 0
      decreases |c| - k
    {
      k := k + 1;
    }
    StopsOnce(v, c, k, Search(v, c, 0));
    if v < c[k].mV { return c[k].pptt; }
    level := Interpolate(c[k], c[k - 1], v);
  }

  /** The closing expression. */
  method Interpolate(lo: Point, hi: Point, v: uint32) returns (level: uint32)
    requires lo.mV <= v < hi.mV && lo.pptt <= hi.pptt
    ensures level == Line(lo, hi, v)
  {
    ProductFits(hi.pptt - lo.pptt, v - lo.mV);
    LineStaysBetween(lo, hi, v);
    var product := Mul32(Sub32(hi.pptt, lo.pptt), Sub32(v, lo.mV));
    level := Add32(lo.pptt, Div32(product, Sub32(hi.mV, lo.mV)));
  }
}
