/**
  The 1D morphology geometry engine of the rxd package: per-segment volumes,
  surface areas and boundary ("neighbor") areas of a section under the
  geometric interpretations inside, membrane, FractionalVolume, ConstantVolume,
  FixedCrossSection, FixedPerimeter, ScalableBorder, ConstantArea and Shell.
  Arithmetic is over `real`; the square root of the slant-height formula is a
  foreign function and is passed in as `sqrt`.
 */
module Geometry {
  import opened Common

  /** numpy.pi, a positive constant. */
  const Pi: real := 3.141592653589793

  /** One 3D point of a section: arc-length position and diameter. */
  datatype Point = Point(arc: real, diam: real)

  /** A section as the engine sees it: length L, segment count nseg and the 3D points. */
  datatype Section = Section(L: real, nseg: nat, pts: seq<Point>)

  /** What every query needs: at least one segment and one 3D point to interpolate from. */
  predicate ValidSection(sec: Section) {
    sec.nseg >= 1 && |sec.pts| >= 1
  }

  function Arcs(pts: seq<Point>): (r: seq<real>)
    ensures |r| == |pts| && forall k :: 0 <= k < |pts| ==> r[k] == pts[k].arc
  {
    seq(|pts|, k requires 0 <= k < |pts| => pts[k].arc)
  }

  predicate Sorted(s: seq<real>) {
    forall i, j :: 0 <= i < j < |s| ==> s[i] <= s[j]
  }

  predicate StrictlySorted(s: seq<real>) {
    forall i, j :: 0 <= i < j < |s| ==> s[i] < s[j]
  }

  /*-------------------------------------------------------------------------
    Linear interpolation (numpy.interp): constant beyond the end points,
    linear between the two points around x.
   -------------------------------------------------------------------------*/

  function Interp(x: real, pts: seq<Point>): real
    requires |pts| >= 1
    decreases |pts|
  {
    if x <= pts[0].arc || |pts| == 1 then pts[0].diam
    else if x < pts[1].arc then
      pts[0].diam + (x - pts[0].arc) * (pts[1].diam - pts[0].diam) / (pts[1].arc - pts[0].arc)
    else Interp(x, pts[1..])
  }

  lemma MulNonneg(a: real, b: real)
    requires a >= 0.0 && b >= 0.0
    ensures a * b >= 0.0
  {
  }

  /** Interpolation never leaves the range of the given diameters. */
  lemma {:induction false} InterpWithin(x: real, pts: seq<Point>, lo: real, hi: real)
    requires |pts| >= 1
    requires forall k :: 0 <= k < |pts| ==> lo <= pts[k].diam <= hi
    ensures lo <= Interp(x, pts) <= hi
    decreases |pts|
  {
    if x <= pts[0].arc || |pts| == 1 {
    } else if x < pts[1].arc {
      var a0, a1, d0, d1 := pts[0].arc, pts[1].arc, pts[0].diam, pts[1].diam;
      var w, len := x - a0, a1 - a0;
      assert 0.0 < w < len;
      var t := w / len;
      assert t * len == w;
      assert 0.0 < t by {
        if t <= 0.0 { MulNonneg(-t, len); }
      }
      assert t < 1.0 by {
        if t >= 1.0 { MulNonneg(t - 1.0, len); }
      }
      assert w * (d1 - d0) / len == t * (d1 - d0);
      assert Interp(x, pts) == (1.0 - t) * d0 + t * d1;
      MulNonneg(1.0 - t, d0 - lo);
      MulNonneg(t, d1 - lo);
      MulNonneg(1.0 - t, hi - d0);
      MulNonneg(t, hi - d1);
    } else {
      assert forall k :: 0 <= k < |pts| - 1 ==> pts[1..][k] == pts[k + 1];
      InterpWithin(x, pts[1..], lo, hi);
    }
  }

  /** At a 3D point of a section with strictly increasing arcs, the interpolated diameter is that point's. */
  lemma {:induction false} InterpAtPoint(pts: seq<Point>, j: nat)
    requires j < |pts|
    requires StrictlySorted(Arcs(pts))
    ensures Interp(pts[j].arc, pts) == pts[j].diam
    decreases |pts|
  {
    if j > 0 {
      assert Arcs(pts)[0] < Arcs(pts)[j];
      assert Arcs(pts)[1] <= Arcs(pts)[j];
      assert StrictlySorted(Arcs(pts[1..])) by {
        forall a, b | 0 <= a < b < |pts| - 1 ensures Arcs(pts[1..])[a] < Arcs(pts[1..])[b] {
          assert Arcs(pts)[a + 1] < Arcs(pts)[b + 1];
        }
      }
      InterpAtPoint(pts[1..], j - 1);
    }
  }

  /*-------------------------------------------------------------------------
    Partition of one segment into breakpoints.
   -------------------------------------------------------------------------*/

  /** The arc positions strictly between lo and hi, in their original order. */
  function Interior(arcs: seq<real>, lo: real, hi: real): (r: seq<real>)
    ensures forall k :: 0 <= k < |r| ==> lo < r[k] < hi
    ensures forall x :: multiset(r)[x] == if lo < x < hi then multiset(arcs)[x] else 0
  {
    if arcs == [] then []
    else
      assert arcs == [arcs[0]] + arcs[1..];
      (if lo < arcs[0] < hi then [arcs[0]] else []) + Interior(arcs[1..], lo, hi)
  }

  /** Filtering keeps a sorted sequence sorted. */
  lemma {:induction false} InteriorSorted(arcs: seq<real>, lo: real, hi: real)
    requires Sorted(arcs)
    ensures Sorted(Interior(arcs, lo, hi))
  {
    if arcs != [] {
      var rest := Interior(arcs[1..], lo, hi);
      InteriorSorted(arcs[1..], lo, hi);
      assert Sorted(rest);
      if lo < arcs[0] < hi {
        forall k | 0 <= k < |rest| ensures arcs[0] <= rest[k] {
          var x := rest[k];
          assert multiset(rest)[x] > 0;
          assert x in multiset(arcs[1..]);
          var m :| 0 <= m < |arcs[1..]| && arcs[1..][m] == x;
          assert arcs[0] <= arcs[m + 1];
        }
        SortedCons(arcs[0], rest);
      }
    }
  }

  /** A value no larger than any element of a sorted sequence can lead it. */
  lemma SortedCons(x: real, s: seq<real>)
    requires Sorted(s) && forall k :: 0 <= k < |s| ==> x <= s[k]
    ensures Sorted([x] + s)
  {
    var t := [x] + s;
    forall i, j | 0 <= i < j < |t| ensures t[i] <= t[j] {
      assert t[j] == s[j - 1];
      if i > 0 {
        assert t[i] == s[i - 1];
      }
    }
  }

  /** Left end of segment iseg, iseg*dx with dx = L/nseg. */
  function SegLo(sec: Section, iseg: nat): real
    requires sec.nseg >= 1
  {
    iseg as real * (sec.L / sec.nseg as real)
  }

  /** Right end of segment iseg, (iseg+1)*dx. */
  function SegHi(sec: Section, iseg: nat): real
    requires sec.nseg >= 1
  {
    (iseg + 1) as real * (sec.L / sec.nseg as real)
  }

  /** The breakpoints of segment iseg: its two ends and every 3D point strictly inside. */
  function Breakpoints(sec: Section, iseg: nat): (r: seq<real>)
    requires sec.nseg >= 1
    ensures |r| >= 2 && r[0] == SegLo(sec, iseg) && r[|r| - 1] == SegHi(sec, iseg)
    ensures forall k :: 0 < k < |r| - 1 ==> SegLo(sec, iseg) < r[k] < SegHi(sec, iseg)
  {
    var lo, hi := SegLo(sec, iseg), SegHi(sec, iseg);
    var mid := Interior(Arcs(sec.pts), lo, hi);
    var r := [lo] + mid + [hi];
    assert forall k :: 0 < k < |r| - 1 ==> r[k] == mid[k - 1];
    r
  }

  /** Every 3D point strictly inside a segment is one of its breakpoints, as often as it occurs. */
  lemma BreakpointsCoverInterior(sec: Section, iseg: nat, x: real)
    requires sec.nseg >= 1
    requires SegLo(sec, iseg) < x < SegHi(sec, iseg)
    ensures multiset(Breakpoints(sec, iseg))[x] == multiset(Arcs(sec.pts))[x]
  {
    var lo, hi := SegLo(sec, iseg), SegHi(sec, iseg);
    var mid := Interior(Arcs(sec.pts), lo, hi);
    assert Breakpoints(sec, iseg) == [lo] + mid + [hi];
    assert multiset([lo] + mid + [hi]) == multiset{lo} + multiset(mid) + multiset{hi};
  }

  /** A 3D point lying exactly on a segment boundary is never an interior breakpoint of either neighbour. */
  lemma BoundaryPointNotDuplicated(sec: Section, iseg: nat)
    requires sec.nseg >= 1
    ensures var bp := Breakpoints(sec, iseg);
      multiset(bp)[SegLo(sec, iseg)] == 1 + (if SegLo(sec, iseg) == SegHi(sec, iseg) then 1 else 0)
  {
    var lo, hi := SegLo(sec, iseg), SegHi(sec, iseg);
    var mid := Interior(Arcs(sec.pts), lo, hi);
    assert Breakpoints(sec, iseg) == [lo] + mid + [hi];
    assert multiset(mid)[lo] == 0;
    assert multiset([lo] + mid + [hi]) == multiset{lo} + multiset(mid) + multiset{hi};
  }

  /** Adjacent segments share their boundary and the segments tile [0, L]. */
  lemma {:induction false} SegmentsTile(sec: Section, iseg: nat)
    requires sec.nseg >= 1
    ensures SegHi(sec, iseg) == SegLo(sec, iseg + 1)
    ensures SegLo(sec, 0) == 0.0
    ensures SegHi(sec, sec.nseg - 1) == sec.L
  {
    var n := sec.nseg as real;
    assert n * (sec.L / n) == sec.L;
  }

  /** With sorted 3D points, every segment's breakpoints ascend. */
  lemma BreakpointsSorted(sec: Section, iseg: nat)
    requires sec.nseg >= 1 && sec.L >= 0.0
    requires Sorted(Arcs(sec.pts))
    ensures Sorted(Breakpoints(sec, iseg))
  {
    var lo, hi := SegLo(sec, iseg), SegHi(sec, iseg);
    var mid := Interior(Arcs(sec.pts), lo, hi);
    InteriorSorted(Arcs(sec.pts), lo, hi);
    var r := [lo] + mid + [hi];
    assert r == Breakpoints(sec, iseg);
    assert lo <= hi by {
      assert sec.L / sec.nseg as real >= 0.0;
    }
    forall i, j | 0 <= i < j < |r| ensures r[i] <= r[j] {
      if 0 < i && j < |r| - 1 {
        assert r[i] == mid[i - 1] && r[j] == mid[j - 1];
      }
    }
  }

  /** Interpolated diameters at a list of positions. */
  function InterpAll(xs: seq<real>, pts: seq<Point>): (r: seq<real>)
    requires |pts| >= 1
    ensures |r| == |xs|
  {
    if xs == [] then [] else [Interp(xs[0], pts)] + InterpAll(xs[1..], pts)
  }

  /** Position k of InterpAll is the interpolation at xs[k]. */
  lemma {:induction false} InterpAllAt(xs: seq<real>, pts: seq<Point>, k: nat)
    requires |pts| >= 1 && k < |xs|
    ensures InterpAll(xs, pts)[k] == Interp(xs[k], pts)
  {
    if k > 0 {
      InterpAllAt(xs[1..], pts, k - 1);
    }
  }

  /*-------------------------------------------------------------------------
    Frustum accumulators.
   -------------------------------------------------------------------------*/

  /** What a per-segment loop sums: inside volume, hollow-shell volume, or lateral area scaled by `scale`. */
  datatype Kernel = VolumeKernel | ShellKernel(lo: real, hi: real) | AreaKernel(scale: real)

  /** pi*(pt1-pt0)/12 * (d0^2 + d0 d1 + d1^2), the volume of a truncated cone. */
  function FrustumVolume(pt0: real, pt1: real, d0: real, d1: real): real {
    Pi * (pt1 - pt0) / 12.0 * (d0 * d0 + d0 * d1 + d1 * d1)
  }

  /** The contribution of one breakpoint pair under a kernel. */
  function Piece(kern: Kernel, sqrt: real -> real, pt0: real, pt1: real, d0: real, d1: real): real {
    match kern
    case VolumeKernel => FrustumVolume(pt0, pt1, d0, d1)
    case ShellKernel(lo, hi) =>
      var d0h, d1h := hi * d0, hi * d1;
      var d0l, d1l := lo * d0, lo * d1;
      Pi * (pt1 - pt0) / 12.0 * ((d0h * d0h + d0h * d1h + d1h * d1h) - (d0l * d0l + d0l * d1l + d1l * d1l))
    case AreaKernel(scale) =>
      scale * 0.5 * (d0 + d1) * sqrt(0.25 * (d0 - d1) * (d0 - d1) + (pt1 - pt0) * (pt1 - pt0))
  }

  /** The sum of the first k pieces of a breakpoint list (the accumulator after k iterations). */
  function PrefixSum(kern: Kernel, sqrt: real -> real, pts: seq<real>, ds: seq<real>, k: nat): real
    requires |ds| == |pts| && k < |pts|
  {
    if k == 0 then 0.0
    else PrefixSum(kern, sqrt, pts, ds, k - 1) + Piece(kern, sqrt, pts[k - 1], pts[k], ds[k - 1], ds[k])
  }

  /** The accumulated value of segment iseg. */
  function SegmentSum(kern: Kernel, sqrt: real -> real, sec: Section, iseg: nat): real
    requires ValidSection(sec)
  {
    SumOver(kern, sqrt, Breakpoints(sec, iseg), sec.pts)
  }

  /** The accumulated value over one breakpoint list. */
  function SumOver(kern: Kernel, sqrt: real -> real, bp: seq<real>, pts: seq<Point>): real
    requires |bp| >= 1 && |pts| >= 1
  {
    PrefixSum(kern, sqrt, bp, InterpAll(bp, pts), |bp| - 1)
  }

  /** One accumulated value per segment. */
  function PerSegment(kern: Kernel, sqrt: real -> real, sec: Section): (r: seq<real>)
    requires ValidSection(sec)
    ensures |r| == sec.nseg
    ensures forall i :: 0 <= i < sec.nseg ==> r[i] == SegmentSum(kern, sqrt, sec, i)
  {
    seq(sec.nseg, i requires 0 <= i < sec.nseg => SegmentSum(kern, sqrt, sec, i))
  }

  /** The inner loop: add up the pieces of consecutive breakpoint pairs. */
  method SumPieces(kern: Kernel, sqrt: real -> real, pts: seq<real>, diams: seq<real>) returns (volume: real)
    requires |pts| >= 1 && |diams| == |pts|
    ensures volume == PrefixSum(kern, sqrt, pts, diams, |pts| - 1)
  {
    volume := 0.0;
    var i := 0;
    while i < |pts| - 1
      invariant 0 <= i <= |pts| - 1
      invariant volume == PrefixSum(kern, sqrt, pts, diams, i)
    {
      volume := volume + Piece(kern, sqrt, pts[i], pts[i + 1], diams[i], diams[i + 1]);
      i := i + 1;
    }
  }

  /**
    The loop shared by volumes1d, the surface-area closure and Shell.volumes1d:
    for each segment, accumulate the pieces of its breakpoints and store the
    total in a fresh array. Its result is PerSegment.
   */
  method Accumulate1d(kern: Kernel, sqrt: real -> real, sec: Section) returns (vals: array<real>)
    requires ValidSection(sec)
    ensures fresh(vals)
    ensures vals[..] == PerSegment(kern, sqrt, sec)
  {
    vals := new real[sec.nseg](_ => 0.0);
    var iseg := 0;
    while iseg < sec.nseg
      invariant 0 <= iseg <= sec.nseg
      invariant forall j :: 0 <= j < iseg ==> vals[j] == SegmentSum(kern, sqrt, sec, j)
    {
      var volume := SegmentValue(kern, sqrt, sec, iseg);
      vals[iseg] := volume;
      iseg := iseg + 1;
    }
    assert vals[..] == PerSegment(kern, sqrt, sec);
  }

  /** One pass of the outer loop: the breakpoints of segment iseg, their
      diameters, and the inner loop over them. */
  method SegmentValue(kern: Kernel, sqrt: real -> real, sec: Section, iseg: nat) returns (volume: real)
    requires ValidSection(sec)
    ensures volume == SegmentSum(kern, sqrt, sec, iseg)
  {
    var pts := Breakpoints(sec, iseg);
    var diams := InterpAll(pts, sec.pts);
    volume := SumPieces(kern, sqrt, pts, diams);
  }

  /*-------------------------------------------------------------------------
    Frustum facts.
   -------------------------------------------------------------------------*/

  /** A zero-length pair contributes nothing to a volume. */
  lemma ZeroLengthVolume(kern: Kernel, sqrt: real -> real, x: real, d0: real, d1: real)
    requires !kern.AreaKernel?
    ensures Piece(kern, sqrt, x, x, d0, d1) == 0.0
  {
  }

  /** A zero-length pair with one diameter contributes no area when sqrt(0) = 0. */
  lemma ZeroLengthArea(scale: real, sqrt: real -> real, x: real, d: real)
    requires sqrt(0.0) == 0.0
    ensures Piece(AreaKernel(scale), sqrt, x, x, d, d) == 0.0
  {
    assert 0.25 * (d - d) * (d - d) + (x - x) * (x - x) == 0.0;
  }

  /** Equal diameters give a cylinder: pi d^2/4 times the length. */
  lemma CylinderVolume(pt0: real, pt1: real, d: real)
    ensures FrustumVolume(pt0, pt1, d, d) == Pi * d * d / 4.0 * (pt1 - pt0)
  {
  }

  /** Equal diameters give the lateral area scale*d*length when sqrt is exact on the square. */
  lemma CylinderArea(scale: real, sqrt: real -> real, pt0: real, pt1: real, d: real)
    requires pt0 <= pt1
    requires sqrt((pt1 - pt0) * (pt1 - pt0)) == pt1 - pt0
    ensures Piece(AreaKernel(scale), sqrt, pt0, pt1, d, d) == scale * d * (pt1 - pt0)
  {
    assert 0.25 * (d - d) * (d - d) + (pt1 - pt0) * (pt1 - pt0) == (pt1 - pt0) * (pt1 - pt0);
  }

  /** The polynomial identity behind FrustumSplit. */
  lemma SplitWeights(d0: real, e: real, t: real)
    ensures var d := d0 + t * e;
            var d1 := d0 + e;
            t * (d0 * d0 + d0 * d + d * d) + (1.0 - t) * (d * d + d * d1 + d1 * d1)
            == d0 * d0 + d0 * d1 + d1 * d1
  {
    var d := d0 + t * e;
    var d1 := d0 + e;
    var q0 := d0 * d0 + d0 * d + d * d;
    var q1 := d * d + d * d1 + d1 * d1;
    assert d * d == d0 * d0 + 2.0 * t * d0 * e + t * t * e * e;
    assert d0 * d == d0 * d0 + t * d0 * e;
    assert d * d1 == d0 * d0 + d0 * e + t * d0 * e + t * e * e;
    assert d1 * d1 == d0 * d0 + 2.0 * d0 * e + e * e;
    assert q0 == 3.0 * d0 * d0 + 3.0 * t * d0 * e + t * t * e * e;
    assert q1 == 3.0 * d0 * d0 + 3.0 * d0 * e + 3.0 * t * d0 * e + e * e + t * e * e + t * t * e * e;
    assert t * q0 == 3.0 * t * d0 * d0 + 3.0 * t * t * d0 * e + t * t * t * e * e;
    assert (1.0 - t) * q1 == q1 - t * q1;
    assert t * q1 == 3.0 * t * d0 * d0 + 3.0 * t * d0 * e + 3.0 * t * t * d0 * e + t * e * e + t * t * e * e + t * t * t * e * e;
  }

  /** Splitting a frustum at a point of its linear diameter profile keeps its volume. */
  lemma FrustumSplit(x0: real, x1: real, d0: real, d1: real, t: real)
    ensures var x := x0 + t * (x1 - x0);
            var d := d0 + t * (d1 - d0);
            FrustumVolume(x0, x, d0, d) + FrustumVolume(x, x1, d, d1) == FrustumVolume(x0, x1, d0, d1)
  {
    var x := x0 + t * (x1 - x0);
    var d := d0 + t * (d1 - d0);
    var h := x1 - x0;
    var q0 := d0 * d0 + d0 * d + d * d;
    var q1 := d * d + d * d1 + d1 * d1;
    var q := d0 * d0 + d0 * d1 + d1 * d1;
    SplitWeights(d0, d1 - d0, t);
    assert t * q0 + (1.0 - t) * q1 == q;
    var c := Pi * h / 12.0;
    assert FrustumVolume(x0, x, d0, d) == c * (t * q0);
    assert FrustumVolume(x, x1, d, d1) == c * ((1.0 - t) * q1);
    assert FrustumVolume(x0, x1, d0, d1) == c * q;
  }

  /** A shell piece is the inside piece scaled by hi^2 - lo^2. */
  lemma ShellPiece(lo: real, hi: real, sqrt: real -> real, pt0: real, pt1: real, d0: real, d1: real)
    ensures Piece(ShellKernel(lo, hi), sqrt, pt0, pt1, d0, d1)
            == (hi * hi - lo * lo) * FrustumVolume(pt0, pt1, d0, d1)
  {
    var q := d0 * d0 + d0 * d1 + d1 * d1;
    assert (hi * d0) * (hi * d0) + (hi * d0) * (hi * d1) + (hi * d1) * (hi * d1) == hi * hi * q;
    assert (lo * d0) * (lo * d0) + (lo * d0) * (lo * d1) + (lo * d1) * (lo * d1) == lo * lo * q;
    assert hi * hi * q - lo * lo * q == (hi * hi - lo * lo) * q;
  }

  lemma {:induction false} ShellPrefixSum(lo: real, hi: real, sqrt: real -> real, pts: seq<real>, ds: seq<real>, k: nat)
    requires |ds| == |pts| && k < |pts|
    ensures PrefixSum(ShellKernel(lo, hi), sqrt, pts, ds, k)
            == (hi * hi - lo * lo) * PrefixSum(VolumeKernel, sqrt, pts, ds, k)
  {
    if k > 0 {
      ShellPrefixSum(lo, hi, sqrt, pts, ds, k - 1);
      ShellPiece(lo, hi, sqrt, pts[k - 1], pts[k], ds[k - 1], ds[k]);
    }
  }

  lemma ShellSegment(lo: real, hi: real, sqrt: real -> real, sec: Section, i: nat)
    requires ValidSection(sec)
    ensures SegmentSum(ShellKernel(lo, hi), sqrt, sec, i) == (hi * hi - lo * lo) * SegmentSum(VolumeKernel, sqrt, sec, i)
  {
    ShellSumOver(lo, hi, sqrt, Breakpoints(sec, i), sec.pts);
  }

  lemma ShellSumOver(lo: real, hi: real, sqrt: real -> real, bp: seq<real>, pts: seq<Point>)
    requires |bp| >= 1 && |pts| >= 1
    ensures SumOver(ShellKernel(lo, hi), sqrt, bp, pts) == (hi * hi - lo * lo) * SumOver(VolumeKernel, sqrt, bp, pts)
  {
    ShellPrefixSum(lo, hi, sqrt, bp, InterpAll(bp, pts), |bp| - 1);
  }

  /** Shell volume of every segment is (hi^2 - lo^2) times its inside volume. */
  lemma ShellPerSegment(lo: real, hi: real, sqrt: real -> real, sec: Section)
    requires ValidSection(sec)
    ensures PerSegment(ShellKernel(lo, hi), sqrt, sec) == ScaleAll(hi * hi - lo * lo, PerSegment(VolumeKernel, sqrt, sec))
  {
    var s, v := PerSegment(ShellKernel(lo, hi), sqrt, sec), PerSegment(VolumeKernel, sqrt, sec);
    var t := ScaleAll(hi * hi - lo * lo, v);
    forall i | 0 <= i < sec.nseg
      ensures s[i] == t[i]
    {
      ShellSegment(lo, hi, sqrt, sec, i);
    }
  }

  /*-------------------------------------------------------------------------
    Boundary quantities: positions linspace(0, L, nseg+1).
   -------------------------------------------------------------------------*/

  /** Position i of linspace(0, L, nseg + 1). */
  function Position(sec: Section, i: int): real
    requires sec.nseg >= 1
  {
    i as real * sec.L / sec.nseg as real
  }

  function BoundaryPositions(sec: Section): (r: seq<real>)
    requires sec.nseg >= 1
    ensures |r| == sec.nseg + 1 && r[0] == 0.0 && r[sec.nseg] == sec.L
    ensures forall i :: 0 <= i <= sec.nseg ==> r[i] == Position(sec, i)
  {
    PositionEnds(sec);
    seq(sec.nseg + 1, i => Position(sec, i))
  }

  /** linspace starts at 0 and ends at L. */
  lemma PositionEnds(sec: Section)
    requires sec.nseg >= 1
    ensures Position(sec, 0) == 0.0 && Position(sec, sec.nseg) == sec.L
  {
    DivSelf(sec.L, sec.nseg as real);
  }

  lemma DivSelf(x: real, n: real)
    requires n >= 1.0
    ensures n * x / n == x
  {
  }

  function BoundaryDiams(sec: Section): (r: seq<real>)
    requires ValidSection(sec)
    ensures |r| == sec.nseg + 1
  {
    InterpAll(BoundaryPositions(sec), sec.pts)
  }

  /** The area pi/4 d^2 of a disk of diameter d. */
  function DiskArea(d: real): real
  {
    Pi * 0.25 * d * d
  }

  /** The area pi/4 ((hi d)^2 - (lo d)^2) of the annulus between the
      fractions lo and hi of diameter d. */
  function AnnulusAreaOf(d: real, lo: real, hi: real): real
  {
    Pi * 0.25 * ((d * hi) * (d * hi) - (d * lo) * (d * lo))
  }

  /** pi/4 d^2 at each boundary (`_neighbor_areas1d`). */
  function NeighborAreas(sec: Section): (r: seq<real>)
    requires ValidSection(sec)
    ensures |r| == sec.nseg + 1
    ensures forall i :: 0 <= i <= sec.nseg ==> r[i] == DiskArea(BoundaryDiams(sec)[i])
    ensures forall i :: 0 <= i <= sec.nseg ==>
              r[i] == DiskArea(Interp(BoundaryPositions(sec)[i], sec.pts))
  {
    BoundaryDiamsAt(sec);
    Disks(BoundaryDiams(sec))
  }

  /** The disk area at each diameter of a list. */
  function Disks(ds: seq<real>): (r: seq<real>)
    ensures |r| == |ds| && forall i :: 0 <= i < |ds| ==> r[i] == DiskArea(ds[i])
  {
    seq(|ds|, i requires 0 <= i < |ds| => DiskArea(ds[i]))
  }

  /** The annulus area between the fractions lo and hi at each diameter of a list. */
  function Annuli(ds: seq<real>, lo: real, hi: real): (r: seq<real>)
    ensures |r| == |ds| && forall i :: 0 <= i < |ds| ==> r[i] == AnnulusAreaOf(ds[i], lo, hi)
  {
    seq(|ds|, i requires 0 <= i < |ds| => AnnulusAreaOf(ds[i], lo, hi))
  }

  /** Annuli are the disks scaled by hi^2 - lo^2. */
  lemma AnnuliScaled(ds: seq<real>, lo: real, hi: real)
    ensures Annuli(ds, lo, hi) == ScaleAll(hi * hi - lo * lo, Disks(ds))
  {
    var s, t := Annuli(ds, lo, hi), ScaleAll(hi * hi - lo * lo, Disks(ds));
    forall i | 0 <= i < |ds|
      ensures s[i] == t[i]
    {
      AnnulusArea(ds[i], lo, hi);
    }
  }

  /** The diameter at each boundary is the interpolation at its position. */
  lemma BoundaryDiamsAt(sec: Section)
    requires ValidSection(sec)
    ensures forall i :: 0 <= i <= sec.nseg ==> BoundaryDiams(sec)[i] == Interp(BoundaryPositions(sec)[i], sec.pts)
  {
    forall i | 0 <= i <= sec.nseg ensures BoundaryDiams(sec)[i] == Interp(BoundaryPositions(sec)[i], sec.pts) {
      InterpAllAt(BoundaryPositions(sec), sec.pts, i);
    }
  }

  /** pi/4 ((hi d)^2 - (lo d)^2) at each boundary (Shell.neighbor_areas1d). */
  function ShellNeighborAreas(lo: real, hi: real, sec: Section): (r: seq<real>)
    requires ValidSection(sec)
    ensures |r| == sec.nseg + 1
    ensures forall i :: 0 <= i <= sec.nseg ==> r[i] == AnnulusAreaOf(BoundaryDiams(sec)[i], lo, hi)
  {
    Annuli(BoundaryDiams(sec), lo, hi)
  }

  /** scale*d at each boundary (the computing branch of `_make_perimeter_function`). */
  function Perimeters(scale: real, sec: Section): (r: seq<real>)
    requires ValidSection(sec)
    ensures |r| == sec.nseg + 1
  {
    var ds := BoundaryDiams(sec);
    seq(sec.nseg + 1, i requires 0 <= i <= sec.nseg => scale * ds[i])
  }

  /** Shell neighbor areas are the inside neighbor areas scaled by hi^2 - lo^2. */
  lemma ShellNeighborScaled(lo: real, hi: real, sec: Section)
    requires ValidSection(sec)
    ensures ShellNeighborAreas(lo, hi, sec) == ScaleAll(hi * hi - lo * lo, NeighborAreas(sec))
  {
    AnnuliScaled(BoundaryDiams(sec), lo, hi);
  }

  lemma AnnulusArea(d: real, lo: real, hi: real)
    ensures AnnulusAreaOf(d, lo, hi) == (hi * hi - lo * lo) * DiskArea(d)
  {
    var c := Pi * 0.25 * d * d;
    assert (d * hi) * (d * hi) - (d * lo) * (d * lo) == (hi * hi - lo * lo) * (d * d);
  }

  /*-------------------------------------------------------------------------
    Closures as values: the per-instance functions of a geometry.
   -------------------------------------------------------------------------*/

  /** What a query returns: a Python scalar or an array/list. */
  datatype Value = Scalar(x: real) | Array(xs: seq<real>)

  /** The closures the variants are assembled from. */
  datatype Fn =
    | Unimplemented(msg: string)          // the base-class method: raises
    | ConstantFn(c: real)                 // constant_function(c): returns c itself
    | PerSegmentFn(kern: Kernel)          // _volumes1d, _make_surfacearea1d_function(s), Shell.volumes1d
    | NeighborAreasFn                     // _neighbor_areas1d
    | PerimeterFn(scale: real)            // _make_perimeter_function(scale)
    | ShellNeighborFn(lo: real, hi: real) // Shell.neighbor_areas1d
    | PerLengthFn(v: real)                // constant_function_per_length(v)
    | EverywhereFn(v: real)               // constant_everywhere_1d(v)
    | EverywherePlusOneFn(v: real)        // constant_everywhere_plus_one_1d(v), [v] * (nseg + 1)
    | ScaleFn(s: real, f: Fn)             // scale_by_constant(s, f)

  /** A boolean query: raises (base class) or is a constant. */
  datatype Flag = FlagUnimplemented(msg: string) | Always(b: bool)

  /** Elementwise product with a constant (numpy's scalar * array). */
  function ScaleAll(s: real, xs: seq<real>): (r: seq<real>)
    ensures |r| == |xs| && forall i :: 0 <= i < |xs| ==> r[i] == s * xs[i]
  {
    seq(|xs|, i requires 0 <= i < |xs| => s * xs[i])
  }

  /** Scaling by 1 is the identity. */
  lemma ScaleAllOne(xs: seq<real>)
    ensures ScaleAll(1.0, xs) == xs
  {
    assert forall i :: 0 <= i < |xs| ==> ScaleAll(1.0, xs)[i] == xs[i];
  }

  function ScaleValue(s: real, v: Value): Value {
    match v
    case Scalar(x) => Scalar(s * x)
    case Array(xs) => Array(ScaleAll(s, xs))
  }

  function Eval(f: Fn, sec: Section, sqrt: real -> real): Result<Value>
    requires ValidSection(sec)
  {
    match f
    case Unimplemented(msg) => Err(msg)
    case ConstantFn(c) => Ok(Scalar(c))
    case PerSegmentFn(kern) => Ok(Array(PerSegment(kern, sqrt, sec)))
    case NeighborAreasFn => Ok(Array(NeighborAreas(sec)))
    case PerimeterFn(scale) => Ok(Array(Perimeters(scale, sec)))
    case ShellNeighborFn(lo, hi) => Ok(Array(ShellNeighborAreas(lo, hi, sec)))
    case PerLengthFn(v) => Ok(Array(seq(sec.nseg, _ => v * sec.L / sec.nseg as real)))
    case EverywhereFn(v) => Ok(Array(seq(sec.nseg, _ => v)))
    case EverywherePlusOneFn(v) => Ok(Array(seq(sec.nseg + 1, _ => v)))
    case ScaleFn(s, g) =>
      match Eval(g, sec, sqrt)
      case Err(msg) => Err(msg)
      case Ok(v) => Ok(ScaleValue(s, v))
  }

  function EvalFlag(f: Flag): Result<bool> {
    match f
    case FlagUnimplemented(msg) => Err(msg)
    case Always(b) => Ok(b)
  }

  /*-------------------------------------------------------------------------
    Geometry variants.
   -------------------------------------------------------------------------*/

  datatype Geometry = Geometry(volumes1d: Fn, surfaceAreas1d: Fn, neighborAreas1d: Fn, isVolume: Flag, isArea: Flag)

  function Volumes1d(g: Geometry, sec: Section, sqrt: real -> real): Result<Value>
    requires ValidSection(sec)
  {
    Eval(g.volumes1d, sec, sqrt)
  }

  function SurfaceAreas1d(g: Geometry, sec: Section, sqrt: real -> real): Result<Value>
    requires ValidSection(sec)
  {
    Eval(g.surfaceAreas1d, sec, sqrt)
  }

  function NeighborAreas1d(g: Geometry, sec: Section, sqrt: real -> real): Result<Value>
    requires ValidSection(sec)
  {
    Eval(g.neighborAreas1d, sec, sqrt)
  }

  function IsVolume(g: Geometry): Result<bool> { EvalFlag(g.isVolume) }

  function IsArea(g: Geometry): Result<bool> { EvalFlag(g.isArea) }

  /** Calling a geometry object returns the object itself (so rxd.inside and rxd.inside() agree). */
  function Call(g: Geometry): (r: Geometry)
    ensures r == g
  {
    g
  }

  /** The base class RxDGeometry: every query raises. */
  const RxDGeometry: Geometry := Geometry(
    Unimplemented("volume1d unimplemented"),
    Unimplemented("surface_areas1d unimplemented"),
    Unimplemented("neighbor_areas1d unimplemented"),
    FlagUnimplemented("is_volume unimplemented"),
    FlagUnimplemented("is_area unimplemented"))

  const Inside: Geometry := Geometry(
    PerSegmentFn(VolumeKernel), PerSegmentFn(AreaKernel(Pi)), NeighborAreasFn, Always(true), Always(false))

  const Membrane: Geometry := Geometry(
    PerSegmentFn(AreaKernel(Pi)), ConstantFn(0.0), PerimeterFn(Pi), Always(false), Always(true))

  function FractionalVolume(volumeFraction: real := 1.0, surfaceFraction: real := 0.0,
                            neighborAreasFraction: Option<real> := None): Geometry
  {
    var naf := if neighborAreasFraction.None? then volumeFraction else neighborAreasFraction.value;
    var sa := if surfaceFraction == 0.0 then ConstantFn(0.0)
              else if surfaceFraction == 1.0 then PerSegmentFn(AreaKernel(Pi))
              else ScaleFn(surfaceFraction, PerSegmentFn(AreaKernel(Pi)));
    Geometry(ScaleFn(volumeFraction, PerSegmentFn(VolumeKernel)), sa,
             ScaleFn(naf, NeighborAreasFn), Always(true), Always(false))
  }

  /** volume and surfaceArea are per unit length. */
  function ConstantVolume(volume: real := 1.0, surfaceArea: real := 0.0, neighborArea: real := 1.0): Geometry {
    Geometry(PerLengthFn(volume), PerLengthFn(surfaceArea), EverywherePlusOneFn(neighborArea), Always(true), Always(false))
  }

  function FixedCrossSection(crossArea: real, surfaceArea: real := 0.0): Geometry {
    Geometry(PerLengthFn(crossArea), PerLengthFn(surfaceArea), EverywherePlusOneFn(crossArea), Always(true), Always(false))
  }

  function FixedPerimeter(perimeter: real, onCellSurface: bool := false): Geometry {
    var vol := PerLengthFn(perimeter);
    Geometry(vol, if !onCellSurface then ConstantFn(0.0) else vol, EverywherePlusOneFn(perimeter), Always(false), Always(true))
  }

  function ScalableBorder(scale: real, onCellSurface: bool := false): Geometry {
    var vol := PerSegmentFn(AreaKernel(scale));
    Geometry(vol, if !onCellSurface then ConstantFn(0.0) else vol, PerimeterFn(scale), Always(false), Always(true))
  }

  function ConstantArea(area: real := 1.0, perim: real := 1.0, onCellSurface: bool := false): Geometry {
    Geometry(ConstantFn(area), if !onCellSurface then ConstantFn(0.0) else ConstantFn(area),
             EverywherePlusOneFn(perim), Always(false), Always(true))
  }

  const ShellNoBoundsMsg := "only Shells with a lo and hi are supported for now"
  const ShellThicknessMsg := "Shell objects must have thickness"
  const ShellCrossingMsg := "shells may not cross the membrane; i.e. 1 cannot lie strictly between lo and hi"

  /** Shell's constructor: validates lo and hi, orders them, and picks the surface function. */
  function Shell(lo: Option<real> := None, hi: Option<real> := None): (r: Result<Geometry>)
    ensures lo.None? || hi.None? ==> r == Err(ShellNoBoundsMsg)
    ensures lo.Some? && hi.Some? ==>
      var a := if lo.value > hi.value then hi.value else lo.value;
      var b := if lo.value > hi.value then lo.value else hi.value;
      && (a == b ==> r == Err(ShellThicknessMsg))
      && (a != b && a < 1.0 < b ==> r == Err(ShellCrossingMsg))
      && (a != b && !(a < 1.0 < b) ==>
            && r.Ok?
            && r.value.volumes1d == PerSegmentFn(ShellKernel(a, b))
            && r.value.neighborAreas1d == ShellNeighborFn(a, b)
            && r.value.surfaceAreas1d == (if a == 1.0 || b == 1.0 then PerSegmentFn(AreaKernel(Pi)) else ConstantFn(0.0)))
  {
    if lo.None? || hi.None? then Err(ShellNoBoundsMsg)
    else
      var (l, h) := if lo.value > hi.value then (hi.value, lo.value) else (lo.value, hi.value);
      if l == h then Err(ShellThicknessMsg)
      else if l == 1.0 || h == 1.0 then
        Ok(Geometry(PerSegmentFn(ShellKernel(l, h)), PerSegmentFn(AreaKernel(Pi)), ShellNeighborFn(l, h), Always(true), Always(false)))
      else if l < 1.0 < h then Err(ShellCrossingMsg)
      else
        Ok(Geometry(PerSegmentFn(ShellKernel(l, h)), ConstantFn(0.0), ShellNeighborFn(l, h), Always(true), Always(false)))
  }

  /*-------------------------------------------------------------------------
    Properties of the variants.
   -------------------------------------------------------------------------*/

  /** (is_volume, is_area) of a geometry, when both are defined. */
  function Classification(g: Geometry): (r: Option<(bool, bool)>)
    ensures r.Some? <==> IsVolume(g).Ok? && IsArea(g).Ok?
    ensures r.Some? ==> r.value == (IsVolume(g).value, IsArea(g).value)
  {
    if g.isVolume.Always? && g.isArea.Always? then Some((g.isVolume.b, g.isArea.b)) else None
  }

  /** Volume-like geometries answer (True, False), area-like ones (False, True). */
  lemma ClassificationOfVariants(vf: real, sf: real, naf: Option<real>, v: real, sa: real, na: real,
                                 p: real, on: bool, s: real, a: real, lo: Option<real>, hi: Option<real>)
    ensures Classification(Inside) == Some((true, false))
    ensures Classification(FractionalVolume(vf, sf, naf)) == Some((true, false))
    ensures Classification(ConstantVolume(v, sa, na)) == Some((true, false))
    ensures Classification(FixedCrossSection(v, sa)) == Some((true, false))
    ensures Shell(lo, hi).Ok? ==> Classification(Shell(lo, hi).value) == Some((true, false))
    ensures Classification(Membrane) == Some((false, true))
    ensures Classification(FixedPerimeter(p, on)) == Some((false, true))
    ensures Classification(ScalableBorder(s, on)) == Some((false, true))
    ensures Classification(ConstantArea(a, p, on)) == Some((false, true))
  {
  }

  /** Every query of the base class raises, and calling it returns the same object. */
  lemma BaseRaises(sec: Section, sqrt: real -> real)
    requires ValidSection(sec)
    ensures Volumes1d(RxDGeometry, sec, sqrt) == Err("volume1d unimplemented")
    ensures SurfaceAreas1d(RxDGeometry, sec, sqrt) == Err("surface_areas1d unimplemented")
    ensures NeighborAreas1d(RxDGeometry, sec, sqrt) == Err("neighbor_areas1d unimplemented")
    ensures IsVolume(RxDGeometry) == Err("is_volume unimplemented")
    ensures IsArea(RxDGeometry) == Err("is_area unimplemented")
    ensures Classification(RxDGeometry) == None
    ensures Call(RxDGeometry) == RxDGeometry
  {
  }

  /** Every query of a concrete variant succeeds: only the base class raises. */
  lemma InsideMembraneDefined(sec: Section, sqrt: real -> real)
    requires ValidSection(sec)
    ensures Volumes1d(Inside, sec, sqrt) == Ok(Array(PerSegment(VolumeKernel, sqrt, sec)))
    ensures SurfaceAreas1d(Inside, sec, sqrt) == Ok(Array(PerSegment(AreaKernel(Pi), sqrt, sec)))
    ensures NeighborAreas1d(Inside, sec, sqrt) == Ok(Array(NeighborAreas(sec)))
    ensures Volumes1d(Membrane, sec, sqrt) == SurfaceAreas1d(Inside, sec, sqrt)
    ensures SurfaceAreas1d(Membrane, sec, sqrt) == Ok(Scalar(0.0))
    ensures NeighborAreas1d(Membrane, sec, sqrt) == Ok(Array(Perimeters(Pi, sec)))
  {
  }

  /** volumes1d returns nseg values and neighbor_areas1d nseg+1, for inside and for every valid shell. */
  lemma QueryLengths(sec: Section, sqrt: real -> real, lo: Option<real>, hi: Option<real>)
    requires ValidSection(sec)
    ensures |Volumes1d(Inside, sec, sqrt).value.xs| == sec.nseg
    ensures |NeighborAreas1d(Inside, sec, sqrt).value.xs| == sec.nseg + 1
    ensures Shell(lo, hi).Ok? ==>
              && Volumes1d(Shell(lo, hi).value, sec, sqrt).Ok?
              && |Volumes1d(Shell(lo, hi).value, sec, sqrt).value.xs| == sec.nseg
              && |NeighborAreas1d(Shell(lo, hi).value, sec, sqrt).value.xs| == sec.nseg + 1
  {
  }

  /** Shell's bounds may be given in either order. */
  lemma ShellSymmetric(lo: real, hi: real)
    ensures Shell(Some(lo), Some(hi)) == Shell(Some(hi), Some(lo))
  {
  }

  /** A shell that does not cross the membrane has hi^2 - lo^2 times the inside
      volumes and neighbor areas; its surface is the full inside surface
      when it reaches the membrane and 0 otherwise. */
  lemma ShellScalesInside(lo: real, hi: real, sec: Section, sqrt: real -> real)
    requires ValidSection(sec)
    requires lo < hi && !(lo < 1.0 < hi)
    ensures Shell(Some(lo), Some(hi)).Ok?
    ensures var g := Shell(Some(lo), Some(hi)).value;
            && Volumes1d(g, sec, sqrt) == Ok(ScaleValue(hi * hi - lo * lo, Volumes1d(Inside, sec, sqrt).value))
            && NeighborAreas1d(g, sec, sqrt) == Ok(ScaleValue(hi * hi - lo * lo, NeighborAreas1d(Inside, sec, sqrt).value))
            && (lo == 1.0 || hi == 1.0 ==> SurfaceAreas1d(g, sec, sqrt) == SurfaceAreas1d(Inside, sec, sqrt))
            && (lo != 1.0 && hi != 1.0 ==> SurfaceAreas1d(g, sec, sqrt) == Ok(Scalar(0.0)))
  {
    ShellPerSegment(lo, hi, sqrt, sec);
    ShellNeighborScaled(lo, hi, sec);
  }

  /** Shell(0, 1) is inside: same volumes, surface areas and neighbor areas, and the same classification. */
  lemma ShellZeroOneIsInside(sec: Section, sqrt: real -> real)
    requires ValidSection(sec)
    ensures Shell(Some(0.0), Some(1.0)).Ok?
    ensures var g := Shell(Some(0.0), Some(1.0)).value;
            && Volumes1d(g, sec, sqrt) == Volumes1d(Inside, sec, sqrt)
            && SurfaceAreas1d(g, sec, sqrt) == SurfaceAreas1d(Inside, sec, sqrt)
            && NeighborAreas1d(g, sec, sqrt) == NeighborAreas1d(Inside, sec, sqrt)
            && Classification(g) == Classification(Inside)
  {
    ShellScalesInside(0.0, 1.0, sec, sqrt);
    assert 1.0 * 1.0 - 0.0 * 0.0 == 1.0;
    ScaleAllOne(PerSegment(VolumeKernel, sqrt, sec));
    ScaleAllOne(NeighborAreas(sec));
  }

  /** Adjacent shells add up: Shell(a,b) + Shell(b,c) = Shell(a,c), segment by segment and boundary by boundary. */
  lemma ShellAdditive(a: real, b: real, c: real, sec: Section, sqrt: real -> real)
    requires ValidSection(sec)
    requires a < b < c && !(a < 1.0 < c)
    ensures Shell(Some(a), Some(b)).Ok? && Shell(Some(b), Some(c)).Ok? && Shell(Some(a), Some(c)).Ok?
    ensures var gab, gbc, gac := Shell(Some(a), Some(b)).value, Shell(Some(b), Some(c)).value, Shell(Some(a), Some(c)).value;
            var vab, vbc, vac := Volumes1d(gab, sec, sqrt).value.xs, Volumes1d(gbc, sec, sqrt).value.xs, Volumes1d(gac, sec, sqrt).value.xs;
            var nab, nbc, nac := NeighborAreas1d(gab, sec, sqrt).value.xs, NeighborAreas1d(gbc, sec, sqrt).value.xs, NeighborAreas1d(gac, sec, sqrt).value.xs;
            && (forall i :: 0 <= i < sec.nseg ==> vab[i] + vbc[i] == vac[i])
            && (forall i :: 0 <= i <= sec.nseg ==> nab[i] + nbc[i] == nac[i])
  {
    ShellScalesInside(a, b, sec, sqrt);
    ShellScalesInside(b, c, sec, sqrt);
    ShellScalesInside(a, c, sec, sqrt);
    var x, y := b * b - a * a, c * c - b * b;
    assert x + y == c * c - a * a;
    AddScaled(x, y, PerSegment(VolumeKernel, sqrt, sec));
    AddScaled(x, y, NeighborAreas(sec));
  }

  /** Scaling by x and by y adds up to scaling by x + y. */
  lemma AddScaled(x: real, y: real, xs: seq<real>)
    ensures forall i :: 0 <= i < |xs| ==> ScaleAll(x, xs)[i] + ScaleAll(y, xs)[i] == ScaleAll(x + y, xs)[i]
  {
    forall i | 0 <= i < |xs|
      ensures ScaleAll(x, xs)[i] + ScaleAll(y, xs)[i] == ScaleAll(x + y, xs)[i]
    {
      Distribute(x, y, xs[i]);
    }
  }

  lemma Distribute(x: real, y: real, z: real)
    ensures x * z + y * z == (x + y) * z
  {
  }

  /** FractionalVolume scales the inside quantities as its three fractions say. */
  lemma FractionalVolumeScales(vf: real, sf: real, naf: Option<real>, sec: Section, sqrt: real -> real)
    requires ValidSection(sec)
    ensures Volumes1d(FractionalVolume(vf, sf, naf), sec, sqrt)
            == Ok(Array(ScaleAll(vf, PerSegment(VolumeKernel, sqrt, sec))))
    ensures NeighborAreas1d(FractionalVolume(vf, sf, naf), sec, sqrt)
            == Ok(Array(ScaleAll(if naf.None? then vf else naf.value, NeighborAreas(sec))))
    ensures sf == 0.0 ==> SurfaceAreas1d(FractionalVolume(vf, sf, naf), sec, sqrt) == Ok(Scalar(0.0))
    ensures sf == 1.0 ==> SurfaceAreas1d(FractionalVolume(vf, sf, naf), sec, sqrt)
                          == Ok(Array(PerSegment(AreaKernel(Pi), sqrt, sec)))
    ensures sf != 0.0 && sf != 1.0 ==> SurfaceAreas1d(FractionalVolume(vf, sf, naf), sec, sqrt)
                                       == Ok(Array(ScaleAll(sf, PerSegment(AreaKernel(Pi), sqrt, sec))))
  {
    var g := FractionalVolume(vf, sf, naf);
    var f := if naf.None? then vf else naf.value;
    assert g.neighborAreas1d == ScaleFn(f, NeighborAreasFn);
    assert g.volumes1d == ScaleFn(vf, PerSegmentFn(VolumeKernel));
    assert Eval(PerSegmentFn(VolumeKernel), sec, sqrt) == Ok(Array(PerSegment(VolumeKernel, sqrt, sec)));
    assert Eval(NeighborAreasFn, sec, sqrt) == Ok(Array(NeighborAreas(sec)));
    assert Eval(PerSegmentFn(AreaKernel(Pi)), sec, sqrt) == Ok(Array(PerSegment(AreaKernel(Pi), sqrt, sec)));
  }

  /** The default FractionalVolume() has inside's volumes and neighbor areas and no surface. */
  lemma DefaultFractionalVolume(sec: Section, sqrt: real -> real)
    requires ValidSection(sec)
    ensures Volumes1d(FractionalVolume(), sec, sqrt) == Volumes1d(Inside, sec, sqrt)
    ensures NeighborAreas1d(FractionalVolume(), sec, sqrt) == NeighborAreas1d(Inside, sec, sqrt)
    ensures SurfaceAreas1d(FractionalVolume(), sec, sqrt) == Ok(Scalar(0.0))
  {
    ScaleAllOne(PerSegment(VolumeKernel, sqrt, sec));
    ScaleAllOne(NeighborAreas(sec));
  }

  function Sum(xs: seq<real>): real {
    if xs == [] then 0.0 else xs[0] + Sum(xs[1..])
  }

  lemma {:induction false} SumConstant(n: nat, c: real)
    ensures Sum(seq(n, _ => c)) == n as real * c
  {
    if n > 0 {
      var s := seq(n, _ => c);
      assert s[1..] == seq(n - 1, _ => c);
      SumConstant(n - 1, c);
      assert Sum(s) == c + (n - 1) as real * c;
      assert (n - 1) as real * c + c == n as real * c;
    }
  }

  /**
    A per-length constant gives nseg copies of v*L/nseg that add up to v*L; the
    "plus one" constants give nseg+1 copies of their value.
   */
  lemma PerLengthTotals(v: real, sec: Section, sqrt: real -> real)
    requires ValidSection(sec)
    ensures var r := Eval(PerLengthFn(v), sec, sqrt).value.xs;
            |r| == sec.nseg && (forall i :: 0 <= i < sec.nseg ==> r[i] == v * sec.L / sec.nseg as real)
            && Sum(r) == v * sec.L
    ensures var r := Eval(EverywherePlusOneFn(v), sec, sqrt).value.xs;
            |r| == sec.nseg + 1 && forall i :: 0 <= i <= sec.nseg ==> r[i] == v
    ensures var r := Eval(EverywhereFn(v), sec, sqrt).value.xs;
            |r| == sec.nseg && forall i :: 0 <= i < sec.nseg ==> r[i] == v
  {
    var n := sec.nseg as real;
    SumConstant(sec.nseg, v * sec.L / n);
    assert n * (v * sec.L / n) == v * sec.L;
  }

  /** ConstantVolume, FixedCrossSection and FixedPerimeter: totals per section and end-cap constants. */
  lemma ConstantVariants(v: real, sa: real, na: real, p: real, on: bool, sec: Section, sqrt: real -> real)
    requires ValidSection(sec)
    ensures Sum(Volumes1d(ConstantVolume(v, sa, na), sec, sqrt).value.xs) == v * sec.L
    ensures Sum(SurfaceAreas1d(ConstantVolume(v, sa, na), sec, sqrt).value.xs) == sa * sec.L
    ensures NeighborAreas1d(ConstantVolume(v, sa, na), sec, sqrt).value.xs == seq(sec.nseg + 1, _ => na)
    ensures Sum(Volumes1d(FixedCrossSection(v, sa), sec, sqrt).value.xs) == v * sec.L
    ensures NeighborAreas1d(FixedCrossSection(v, sa), sec, sqrt).value.xs == seq(sec.nseg + 1, _ => v)
    ensures Sum(Volumes1d(FixedPerimeter(p, on), sec, sqrt).value.xs) == p * sec.L
    ensures NeighborAreas1d(FixedPerimeter(p, on), sec, sqrt).value.xs == seq(sec.nseg + 1, _ => p)
    ensures SurfaceAreas1d(FixedPerimeter(p, on), sec, sqrt)
            == (if on then Volumes1d(FixedPerimeter(p, on), sec, sqrt) else Ok(Scalar(0.0)))
  {
    PerLengthTotals(v, sec, sqrt);
    PerLengthTotals(sa, sec, sqrt);
    PerLengthTotals(p, sec, sqrt);
  }

  /** ScalableBorder and ConstantArea: on the cell surface the surface is the volume function, otherwise 0. */
  lemma BorderVariants(s: real, a: real, p: real, on: bool, sec: Section, sqrt: real -> real)
    requires ValidSection(sec)
    ensures Volumes1d(ScalableBorder(s, on), sec, sqrt) == Ok(Array(PerSegment(AreaKernel(s), sqrt, sec)))
    ensures SurfaceAreas1d(ScalableBorder(s, on), sec, sqrt)
            == (if on then Volumes1d(ScalableBorder(s, on), sec, sqrt) else Ok(Scalar(0.0)))
    ensures NeighborAreas1d(ScalableBorder(s, on), sec, sqrt) == Ok(Array(Perimeters(s, sec)))
    ensures Volumes1d(ConstantArea(a, p, on), sec, sqrt) == Ok(Scalar(a))
    ensures SurfaceAreas1d(ConstantArea(a, p, on), sec, sqrt) == Ok(Scalar(if on then a else 0.0))
    ensures NeighborAreas1d(ConstantArea(a, p, on), sec, sqrt) == Ok(Array(seq(sec.nseg + 1, _ => p)))
  {
  }

  /** Membrane and ScalableBorder(pi) agree on volumes and neighbor areas. */
  lemma MembraneIsScalableBorderPi(sec: Section, sqrt: real -> real)
    requires ValidSection(sec)
    ensures Volumes1d(Membrane, sec, sqrt) == Volumes1d(ScalableBorder(Pi), sec, sqrt)
    ensures NeighborAreas1d(Membrane, sec, sqrt) == NeighborAreas1d(ScalableBorder(Pi), sec, sqrt)
  {
  }
}
