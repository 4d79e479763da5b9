/**
 * The immutable point of the collinear-points exercise: two Java ints,
 * compared by y then x, with the slope to another point and the comparator
 * that orders points by that slope.
 *
 * A Point is a class because the brute-force search tells points apart by
 * reference. Java's `int` subtraction wraps around at 32 bits and is
 * written out as Wrap32. Slopes are exact rationals instead of doubles;
 * the two infinities of slopeTo are their own cases.
 */
module Points {
  import opened Text

  newtype int32 = v: int | -0x8000_0000 <= v < 0x8000_0000

  /**
   * Java's int subtraction: the exact difference of two ints lies strictly
   * between -2^32 and 2^32, and wraps around by 2^32 when it leaves the int
   * range.
   */
  function Wrap32(v: int): (w: int32)
    requires -0x1_0000_0000 < v < 0x1_0000_0000
    ensures w as int == v || w as int == v - 0x1_0000_0000 || w as int == v + 0x1_0000_0000
    ensures -0x8000_0000 <= v < 0x8000_0000 ==> w as int == v
  {
    if v < -0x8000_0000 then (v + 0x1_0000_0000) as int32
    else if v >= 0x8000_0000 then (v - 0x1_0000_0000) as int32
    else v as int32
  }

  /** Integer.compare. */
  function IntCompare(a: int, b: int): (c: int)
    ensures c == -1 <==> a < b
    ensures c == 0 <==> a == b
    ensures c == 1 <==> a > b
  {
    if a < b then -1 else if a > b then 1 else 0
  }

  /** compareTo on coordinates, as written: the sign of the wrapped difference of the ys, then Integer.compare on the xs. */
  function CompareCoords(x0: int32, y0: int32, x1: int32, y1: int32): (c: int)
    ensures c in {-1, 0, 1}
  {
    var dy := Wrap32(y0 as int - y1 as int);
    if dy < 0 then -1 else if dy > 0 then 1 else IntCompare(x0 as int, x1 as int)
  }

  /** The order the documentation of compareTo states: y first, ties broken by x. */
  function CompareIntended(x0: int32, y0: int32, x1: int32, y1: int32): (c: int)
    ensures c in {-1, 0, 1}
  {
    if y0 < y1 then -1 else if y0 > y1 then 1 else IntCompare(x0 as int, x1 as int)
  }

  /** Without overflow in the subtraction, compareTo is the documented order. */
  lemma CompareAsIntended(x0: int32, y0: int32, x1: int32, y1: int32)
    requires -0x8000_0000 <= y0 as int - y1 as int < 0x8000_0000
    ensures CompareCoords(x0, y0, x1, y1) == CompareIntended(x0, y0, x1, y1)
  {
  }

  /** With overflow it is not: (0, -2^31) is placed above (0, 1). */
  lemma CompareOverflows()
    ensures CompareCoords(0, -0x8000_0000, 0, 1) == 1
    ensures CompareIntended(0, -0x8000_0000, 0, 1) == -1
  {
    assert Wrap32(-0x8000_0000 - 1) == 0x7fff_ffff;
  }

  /** The documented order is 0 exactly on equal points, antisymmetric and transitive. */
  lemma CompareIntendedIsOrder(x0: int32, y0: int32, x1: int32, y1: int32, x2: int32, y2: int32)
    ensures CompareIntended(x0, y0, x1, y1) == 0 <==> x0 == x1 && y0 == y1
    ensures CompareIntended(x0, y0, x1, y1) == -CompareIntended(x1, y1, x0, y0)
    ensures CompareIntended(x0, y0, x1, y1) < 0 && CompareIntended(x1, y1, x2, y2) < 0 ==>
              CompareIntended(x0, y0, x2, y2) < 0
  {
  }

  /** A slope as slopeTo reports it. */
  datatype Slope = NegInf | Finite(value: real) | PosInf

  /** The slope of the vector (dx, dy): -infinity for the zero vector, +infinity when vertical, dy / dx otherwise. */
  function SlopeOf(dx: int, dy: int): (s: Slope)
    ensures s == NegInf <==> dx == 0 && dy == 0
    ensures s == PosInf <==> dx == 0 && dy != 0
    ensures dy == 0 && dx != 0 ==> s == Finite(0.0)
  {
    if dx == 0 then (if dy == 0 then NegInf else PosInf)
    else Finite(dy as real / dx as real)
  }

  /** Two non-zero vectors have the same slope exactly when they are parallel. */
  lemma SameSlopeIffParallel(dx1: int, dy1: int, dx2: int, dy2: int)
    requires (dx1, dy1) != (0, 0) && (dx2, dy2) != (0, 0)
    ensures SlopeOf(dx1, dy1) == SlopeOf(dx2, dy2) <==> dx1 * dy2 == dx2 * dy1
  {
    if dx1 != 0 && dx2 != 0 {
      var a, b, c, d := dy1 as real, dx1 as real, dy2 as real, dx2 as real;
      assert a / b == c / d <==> a * d == c * b by {
        assert a / b * (b * d) == a * d;
        assert c / d * (b * d) == c * b;
      }
      assert a * d == (dy1 * dx2) as real && c * b == (dy2 * dx1) as real;
    } else if dx1 == 0 && dx2 != 0 {
      assert dx2 * dy1 != 0;
    } else if dx1 != 0 && dx2 == 0 {
      assert dx1 * dy2 != 0;
    }
  }

  /** The order of Java's `<` on the doubles slopeTo returns. */
  predicate SlopeLess(s: Slope, t: Slope) {
    match (s, t)
    case (NegInf, NegInf) => false
    case (NegInf, _) => true
    case (Finite(a), Finite(b)) => a < b
    case (Finite(_), PosInf) => true
    case _ => false
  }

  /** `<` on slopes is a strict total order. */
  lemma SlopeLessIsStrictTotalOrder(s: Slope, t: Slope, u: Slope)
    ensures !SlopeLess(s, s)
    ensures SlopeLess(s, t) && SlopeLess(t, u) ==> SlopeLess(s, u)
    ensures s == t || SlopeLess(s, t) || SlopeLess(t, s)
    ensures !(SlopeLess(s, t) && SlopeLess(t, s))
  {
  }

  /** slopeOrder().compare on two slopes: -1, 1 or 0 by `<` and `>`. */
  function CompareSlopes(s1: Slope, s2: Slope): (c: int)
    ensures c == -1 <==> SlopeLess(s1, s2)
    ensures c == 1 <==> SlopeLess(s2, s1)
    ensures c == 0 <==> s1 == s2
  {
    SlopeLessIsStrictTotalOrder(s1, s2, s1);
    if SlopeLess(s1, s2) then -1 else if SlopeLess(s2, s1) then 1 else 0
  }

  class Point {
    const x: int32
    const y: int32

    /** Point(x, y). */
    constructor (x: int32, y: int32)
      ensures this.x == x && this.y == y
    {
      this.x := x;
      this.y := y;
    }

    /**
     * compareTo: -1, 0 or 1; without overflow in this.y - that.y it is the
     * order by y then x, and 0 exactly on equal coordinates.
     */
    function CompareTo(that: Point): (c: int)
      ensures c in {-1, 0, 1}
      ensures -0x8000_0000 <= y as int - that.y as int < 0x8000_0000 ==>
                c == CompareIntended(x, y, that.x, that.y) && (c == 0 <==> x == that.x && y == that.y)
    {
      CompareCoords(x, y, that.x, that.y)
    }

    /** slopeTo: the slope of the vector from this point to that one, both differences wrapped to int. */
    function SlopeTo(that: Point): (s: Slope)
      ensures s == NegInf <==> x == that.x && y == that.y
      ensures s == PosInf <==> x == that.x && y != that.y
      ensures y == that.y && x != that.x ==> s == Finite(0.0)
    {
      SlopeOf(Wrap32(that.x as int - x as int) as int, Wrap32(that.y as int - y as int) as int)
    }

    /** slopeOrder().compare(o1, o2): o1 and o2 ordered by their slopes from this point. */
    function SlopeOrderCompare(o1: Point, o2: Point): (c: int)
      ensures c == -1 <==> SlopeLess(SlopeTo(o1), SlopeTo(o2))
      ensures c == 1 <==> SlopeLess(SlopeTo(o2), SlopeTo(o1))
      ensures c == 0 <==> SlopeTo(o1) == SlopeTo(o2)
    {
      CompareSlopes(SlopeTo(o1), SlopeTo(o2))
    }

    /** toString: "(x, y)"; ToStringInjective shows it tells points apart. */
    function ToString(): (s: string)
      ensures 6 <= |s| && s[0] == '(' && s[|s| - 1] == ')'
    {
      "(" + IntToString(x as int) + ", " + IntToString(y as int) + ")"
    }
  }

  /** Without overflow in the differences, slopeTo is the slope of the exact vector between the points. */
  lemma SlopeToExact(p: Point, q: Point)
    requires -0x8000_0000 <= q.x as int - p.x as int < 0x8000_0000
    requires -0x8000_0000 <= q.y as int - p.y as int < 0x8000_0000
    ensures p.SlopeTo(q) == SlopeOf(q.x as int - p.x as int, q.y as int - p.y as int)
  {
  }

  /** The text before the first comma. */
  function BeforeComma(s: string): (r: string)
    ensures |r| <= |s| && ',' !in r
  {
    if s == [] || s[0] == ',' then [] else [s[0]] + BeforeComma(s[1..])
  }

  /** A comma-free text followed by a comma is read back by BeforeComma. */
  lemma {:induction false} BeforeCommaAppend(a: string, t: string)
    requires ',' !in a
    ensures BeforeComma(a + [','] + t) == a
  {
    if a != [] {
      assert (a + [','] + t)[1..] == a[1..] + [','] + t;
      BeforeCommaAppend(a[1..], t);
    }
  }

  /** "(" + a + ", " + b + ")" with a free of commas splits back into a and b. */
  lemma SplitRendering(a: string, b: string)
    requires ',' !in a
    ensures BeforeComma(("(" + a + ", " + b + ")")[1..]) == a
    ensures ("(" + a + ", " + b + ")")[|a| + 3..|a| + 3 + |b|] == b
  {
    var s := "(" + a + ", " + b + ")";
    assert s[1..] == a + [','] + (" " + b + ")");
    BeforeCommaAppend(a, " " + b + ")");
  }

  /** Rendered ints hold no comma. */
  lemma NoCommaInInt(x: int)
    ensures ',' !in IntToString(x)
  {
    var s := IntToString(x);
    assert forall i :: 0 <= i < |s| ==> s[i] != ',';
  }

  /** Points with different coordinates print differently. */
  lemma ToStringInjective(p: Point, q: Point)
    requires p.ToString() == q.ToString()
    ensures p.x == q.x && p.y == q.y
  {
    var a, b := IntToString(p.x as int), IntToString(p.y as int);
    var c, d := IntToString(q.x as int), IntToString(q.y as int);
    NoCommaInInt(p.x as int);
    NoCommaInInt(q.x as int);
    SplitRendering(a, b);
    SplitRendering(c, d);
    assert a == c;
    assert |b| == |d|;
    assert b == d;
    IntToStringInjective(p.x as int, q.x as int);
    IntToStringInjective(p.y as int, q.y as int);
  }
}
