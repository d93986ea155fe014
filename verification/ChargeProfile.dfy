/** The charge profile of google_bms.c: capacity fade by interpolation, choice of a voltage
    tier, and rounding of the float voltage. */
module ChargeProfile {
  import opened Machine
  import opened Errno

  // ------------------------------------------------------------- capacity fade

  datatype Ref = Ref(cycles: int, fade: int)

  /** Reference points at positive, strictly increasing cycle counts; fade never recovers. All
      of them fit an int. */
  ghost predicate Curve(rs: seq<Ref>) {
    && (forall i | 0 <= i < |rs| :: 0 < rs[i].cycles < TWO31 && 0 <= rs[i].fade < TWO31)
    && (forall i, j | 0 <= i < j < |rs| :: rs[i].cycles < rs[j].cycles && rs[i].fade <= rs[j].fade)
  }

  /** The point where segment i starts: the origin, or the reference before it. */
  function Start(rs: seq<Ref>, i: nat): Ref
    requires i < |rs|
  {
    if i == 0 then Ref(0, 0) else rs[i - 1]
  }

  /** The segment that decides `cycles`, from i on; the last one also serves everything after it. */
  function SegmentFrom(rs: seq<Ref>, cycles: int, i: nat): (r: nat)
    requires i < |rs|
    ensures i <= r < |rs| && (r < |rs| - 1 ==> cycles < rs[r].cycles)
    ensures forall k | i <= k < r :: rs[k].cycles <= cycles
    decreases |rs| - i
  {
    if i == |rs| - 1 || cycles < rs[i].cycles then i else SegmentFrom(rs, cycles, i + 1)
  }

  function Segment(rs: seq<Ref>, cycles: int): nat
    requires rs != []
  {
    SegmentFrom(rs, cycles, 0)
  }

  /** The line through segment i, rounded down. */
  function Line(rs: seq<Ref>, i: nat, cycles: int): int
    requires i < |rs| && Start(rs, i).cycles < rs[i].cycles
  {
    var s, f := Start(rs, i), rs[i];
    (cycles - s.cycles) * (f.fade - s.fade) / (f.cycles - s.cycles) + s.fade
  }

  lemma LineMono(rs: seq<Ref>, i: nat, a: int, b: int)
    requires Curve(rs) && i < |rs| && a <= b
    ensures Line(rs, i, a) <= Line(rs, i, b)
  {
    var s, f := Start(rs, i), rs[i];
    MulMono(a - s.cycles, b - s.cycles, f.fade - s.fade);
    DivMono((a - s.cycles) * (f.fade - s.fade), (b - s.cycles) * (f.fade - s.fade), f.cycles - s.cycles);
  }

  lemma LineEnds(rs: seq<Ref>, i: nat)
    requires Curve(rs) && i < |rs|
    ensures Line(rs, i, Start(rs, i).cycles) == Start(rs, i).fade
    ensures Line(rs, i, rs[i].cycles) == rs[i].fade
  {
    var s, f := Start(rs, i), rs[i];
    var q, d := f.fade - s.fade, f.cycles - s.cycles;
    DivExact(q, d);
    DivExact(0, d);
    assert d * q == q * d && 0 * q == 0;
  }

  ghost function Fade(rs: seq<Ref>, cycles: int): int
    requires Curve(rs) && rs != []
  {
    Line(rs, Segment(rs, cycles), cycles)
  }

  /** The product inside the line and the result both fit an int. */
  ghost predicate SegmentFits(rs: seq<Ref>, i: nat, cycles: int)
    requires Curve(rs) && i < |rs|
  {
    && (cycles - Start(rs, i).cycles) * (rs[i].fade - Start(rs, i).fade) < TWO31
    && Line(rs, i, cycles) < TWO31
  }

  lemma QuotientSmaller(w: int, d: nat)
    requires 0 < d
    ensures Min(0, w) <= Trunc(w, d) <= Max(0, w)
  {
    MulMono(1, d, Abs(w) / d);
  }

  /** A dividend that lost its upper bits gives too small a quotient. */
  lemma WrappedQuotient(p: nat, d: nat)
    requires 0 < d < TWO31 <= p
    ensures -TWO31 <= Trunc(Signed32(p), d) < TWO31 && Trunc(Signed32(p), d) < p / d
  {
    var w: int := Signed32(p);
    QuotientSmaller(w, d);
    DivMono(d, p, d);
    if w >= 0 {
      assert w + d <= p;
      DivMono(w + d, p, d);
      DivModUnique(w + d, d, w / d + 1, w % d);
    }
  }

  lemma LineNotNegative(p: int, d: int)
    requires 0 <= p && 0 < d
    ensures 0 <= p / d
  {
  }

  /** A dividend that fits gives the quotient itself. */
  lemma FittingQuotient(p: nat, d: nat)
    requires 0 < d && p < TWO31
    ensures Trunc(Signed32(p), d) == p / d
    ensures 0 <= p / d < TWO31
  {
    SignedFits(p);
    QuotientSmaller(p, d);
  }

  lemma SignedFits(x: nat)
    requires x < TWO32
    ensures Signed32(x) == x <==> x < TWO31
  {
  }

  /** Adding to a quotient that is too small cannot repair it: the sum wraps only to below 0. */
  lemma SumTooSmall(t: int, fade: nat, line: nat)
    requires -TWO31 <= t < TWO31 && fade < TWO31 && t + fade < line
    ensures Signed32(t + fade) != line
  {
  }

  /** The division, in ints: exact if the dividend fits, else too small. */
  method Divide(product: nat, length: nat, ghost q: nat) returns (t: int)
    requires 0 < length < TWO31 && q == product / length
    ensures product < TWO31 ==> t == q < TWO31
    ensures TWO31 <= product ==> -TWO31 <= t < TWO31 && t < q
  {
    if product < TWO31 {
      FittingQuotient(product, length);
    } else {
      WrappedQuotient(product, length);
    }
    t := Trunc(Signed32(product), length);
  }

  /** A quotient and a sum computed in ints are right if and only if dividend and result fit. */
  method Interpolate(product: nat, length: nat, fade: nat, ghost q: nat) returns (r: s32)
    requires 0 < length < TWO31 && fade < TWO31 && q == product / length
    ensures r == q + fade <==> product < TWO31 && q + fade < TWO31
  {
    var t := Divide(product, length, q);
    if product < TWO31 {
      SignedFits(q + fade);
    } else {
      SumTooSmall(t, fade, q + fade);
    }
    r := Signed32(t + fade);
  }

  /** The line's value as quotient and starting fade. */
  lemma LineParts(rs: seq<Ref>, i: nat, cycles: int) returns (q: nat)
    requires Curve(rs) && i < |rs| && Start(rs, i).cycles <= cycles
    ensures var product := (cycles - Start(rs, i).cycles) * (rs[i].fade - Start(rs, i).fade);
            && 0 <= product && q == product / (rs[i].cycles - Start(rs, i).cycles)
            && Line(rs, i, cycles) == q + Start(rs, i).fade
  {
    var s, f := Start(rs, i), rs[i];
    MulMono(0, cycles - s.cycles, f.fade - s.fade);
    LineNotNegative((cycles - s.cycles) * (f.fade - s.fade), f.cycles - s.cycles);
    q := (cycles - s.cycles) * (f.fade - s.fade) / (f.cycles - s.cycles);
  }

  /** One segment of the curve, in ints. */
  method LineAt(rs: seq<Ref>, idx: nat, cycles: s32) returns (r: s32)
    requires Curve(rs) && idx < |rs| && Start(rs, idx).cycles <= cycles
    ensures r == Line(rs, idx, cycles) <==> SegmentFits(rs, idx, cycles)
  {
    var s, f := if idx > 0 then rs[idx - 1] else Ref(0, 0), rs[idx];
    ghost var q := LineParts(rs, idx, cycles);
    r := Interpolate((cycles - s.cycles) * (f.fade - s.fade), f.cycles - s.cycles, s.fade, q);
  }

  /** gbms_aacr_fade10, in the C code's int arithmetic. It is the line's value exactly when the
      product and the result fit an int. */
  method Fade10(rs: seq<Ref>, cycles: s32) returns (fade: s32)
    requires Curve(rs)
    ensures rs == [] || cycles < 0 ==> fade == EINVAL
    ensures rs != [] && 0 <= cycles ==>
              (fade == Fade(rs, cycles) <==> SegmentFits(rs, Segment(rs, cycles), cycles))
  {
    if |rs| == 0 || cycles < 0 {
      return EINVAL;
    }
    var idx := 0;
    while idx < |rs| - 1 && !(cycles < rs[idx].cycles)
      invariant 0 <= idx < |rs| && Segment(rs, cycles) == SegmentFrom(rs, cycles, idx)
      invariant Start(rs, idx).cycles <= cycles
    {
      idx := idx + 1;
    }
    fade := LineAt(rs, idx, cycles);
  }

  /** Fade is exact at every reference point, and 0 at the start. */
  lemma FadeExact(rs: seq<Ref>, k: nat)
    requires Curve(rs) && k < |rs|
    ensures Fade(rs, rs[k].cycles) == rs[k].fade
    ensures Fade(rs, 0) == 0
  {
    var first, next := rs[0], if k + 1 < |rs| then rs[k + 1] else rs[k];
    var i := Segment(rs, rs[k].cycles);
    assert i == k || i == k + 1;
    LineEnds(rs, i);
    LineEnds(rs, 0);
  }

  /** Fade never falls below the reference where its segment starts, nor, inside the segment,
      rises above the one where it ends. */
  lemma FadeBetween(rs: seq<Ref>, cycles: int)
    requires Curve(rs) && rs != [] && 0 <= cycles
    ensures var i := Segment(rs, cycles);
            Start(rs, i).fade <= Fade(rs, cycles) && (cycles <= rs[i].cycles ==> Fade(rs, cycles) <= rs[i].fade)
  {
    var i := Segment(rs, cycles);
    LineEnds(rs, i);
    LineMono(rs, i, Start(rs, i).cycles, cycles);
    if cycles <= rs[i].cycles {
      LineMono(rs, i, cycles, rs[i].cycles);
    }
  }

  /** More cycles never mean less fade, across segments and in the extrapolated tail. */
  lemma FadeMonotone(rs: seq<Ref>, a: int, b: int)
    requires Curve(rs) && rs != [] && 0 <= a <= b
    ensures Fade(rs, a) <= Fade(rs, b)
  {
    var i, j := Segment(rs, a), Segment(rs, b);
    if i == j {
      LineMono(rs, i, a, b);
    } else {
      assert i < j;
      FadeBetween(rs, a);
      FadeBetween(rs, b);
    }
  }

  // ------------------------------------------------------------- voltage tiers

  /** First tier from i on whose limit is not below the battery voltage, the last one if none is. */
  function BaseFrom(volt: seq<int>, vbatt: int, i: nat): (b: nat)
    requires i < |volt|
    ensures i <= b < |volt| && (b < |volt| - 1 ==> vbatt <= volt[b])
    ensures forall k | i <= k < b :: volt[k] < vbatt
    decreases |volt| - i
  {
    if i == |volt| - 1 || vbatt <= volt[i] then i else BaseFrom(volt, vbatt, i + 1)
  }

  /** The tier chosen: the base tier, or the next one when the base leaves too little headroom. */
  function Tier(volt: seq<int>, res: int, vbatt: int): (t: nat)
    requires volt != []
    ensures t < |volt|
  {
    var b := BaseFrom(volt, vbatt, 0);
    if b != |volt| - 1 && volt[b] - vbatt < 3 * res then b + 1 else b
  }

  /** The same, with headroom and tripled resolution computed as ints. */
  function Tier32(volt: seq<s32>, res: u32, vbatt: s32): (t: nat)
    requires volt != []
    ensures t < |volt|
  {
    var b := BaseFrom(volt, vbatt, 0);
    if b != |volt| - 1 && Signed32(volt[b] - vbatt) < Signed32(Wrap32(3 * res)) then b + 1 else b
  }

  /** For voltages that are not negative and a resolution below 2^31 / 3 ints are wide enough. */
  lemma Tier32IsTier(volt: seq<s32>, res: u32, vbatt: s32)
    requires volt != [] && 0 <= vbatt && 3 * res < TWO31
    ensures Tier32(volt, res, vbatt) == Tier(volt, res, vbatt)
  {
    var limit: int := volt[BaseFrom(volt, vbatt, 0)];
    assert limit < TWO31;
  }

  /** gbms_msc_voltage_idx. */
  method VoltageIdx(volt: seq<s32>, res: u32, vbatt: s32) returns (idx: nat)
    requires volt != []
    ensures idx == Tier32(volt, res, vbatt)
    ensures 0 <= vbatt && 3 * res < TWO31 ==> idx == Tier(volt, res, vbatt)
  {
    idx := 0;
    while idx < |volt| - 1 && vbatt > volt[idx]
      invariant 0 <= idx < |volt| && BaseFrom(volt, vbatt, 0) == BaseFrom(volt, vbatt, idx)
    {
      idx := idx + 1;
    }
    if idx != |volt| - 1 && Signed32(volt[idx] - vbatt) < Signed32(Wrap32(res * 3)) {
      idx := idx + 1;
    }
    if 0 <= vbatt && 3 * res < TWO31 {
      Tier32IsTier(volt, res, vbatt);
    }
  }

  /** A higher battery voltage never selects an earlier tier; the limits need not be sorted. */
  lemma TierMonotone(volt: seq<int>, res: int, v: int, v': int)
    requires volt != [] && v <= v'
    ensures Tier(volt, res, v) <= Tier(volt, res, v')
  {
    var limit := volt[BaseFrom(volt, v', 0)];
  }

  ghost predicate Headroom(volt: seq<int>, res: int)
    requires volt != []
  {
    forall v | Tier(volt, res, v) < |volt| - 1 :: volt[Tier(volt, res, v)] - v >= 3 * res
  }

  ghost predicate Spaced(volt: seq<int>, res: int) {
    forall i | 0 <= i < |volt| - 2 :: volt[i + 1] - volt[i] >= 3 * res
  }

  /** Every tier but the last leaves three resolution steps of headroom, at every battery
      voltage, if and only if the tiers before the last are at least that far apart. */
  lemma HeadroomIff(volt: seq<int>, res: int)
    requires volt != [] && 0 < res && forall i, j | 0 <= i < j < |volt| :: volt[i] <= volt[j]
    ensures Headroom(volt, res) <==> Spaced(volt, res)
  {
    if Spaced(volt, res) {
      forall v | Tier(volt, res, v) < |volt| - 1
        ensures volt[Tier(volt, res, v)] - v >= 3 * res
      {
        var b := BaseFrom(volt, v, 0);
        if Tier(volt, res, v) == b + 1 {
          assert volt[b + 1] - volt[b] >= 3 * res;
        }
      }
    }
    if Headroom(volt, res) {
      forall i | 0 <= i < |volt| - 2
        ensures volt[i + 1] - volt[i] >= 3 * res
      {
        var b := BaseFrom(volt, volt[i], 0);
        assert b <= i && volt[b] == volt[i];
        assert Tier(volt, res, volt[i]) == b + 1;
      }
    }
  }

  /** The tier chosen is never later than need be: no tier before it leaves the headroom. When the
      tiers before the last are far enough apart it is the earliest that does, and the last one only
      if none does. */
  lemma EarliestWithHeadroom(volt: seq<int>, res: int, v: int)
    requires volt != [] && 0 < res && forall i, j | 0 <= i < j < |volt| :: volt[i] <= volt[j]
    ensures forall k | 0 <= k < Tier(volt, res, v) :: volt[k] - v < 3 * res
    ensures Spaced(volt, res) ==>
              forall t | 0 <= t < |volt| ::
                t == Tier(volt, res, v) <==>
                && (forall k | 0 <= k < t :: volt[k] - v < 3 * res)
                && (t < |volt| - 1 ==> volt[t] - v >= 3 * res)
  {
    var c := Tier(volt, res, v);
    if Spaced(volt, res) {
      HeadroomIff(volt, res);
      assert c < |volt| - 1 ==> volt[c] - v >= 3 * res;
    }
  }

  /** gbms_msc_voltage_idx_merge_tiers; `cc` is the current row of the temperature, if valid.
      It only moves on through tiers of the same current, as far as it can, and never enters
      the last tier by merging. */
  method VoltageIdxMergeTiers(volt: seq<s32>, res: u32, vbatt: s32, cc: seq<u32>, valid: bool)
    returns (idx: nat)
    requires volt != [] && |cc| == |volt|
    ensures Tier32(volt, res, vbatt) <= idx < |volt|
    ensures !valid ==> idx == Tier32(volt, res, vbatt)
    ensures forall k | Tier32(volt, res, vbatt) <= k <= idx :: cc[k] == cc[Tier32(volt, res, vbatt)]
    ensures idx != Tier32(volt, res, vbatt) ==> idx < |volt| - 1
    ensures valid && idx < |volt| - 2 ==> cc[idx + 1] != cc[Tier32(volt, res, vbatt)]
  {
    idx := VoltageIdx(volt, res, vbatt);
    if !valid {
      return;
    }
    ghost var base := idx;
    var ccMax := cc[idx];
    while idx < |volt| - 2 && ccMax == cc[idx + 1]
      invariant base <= idx < |volt|
      invariant idx != base ==> idx < |volt| - 1
      invariant forall k | base <= k <= idx :: cc[k] == ccMax
    {
      idx := idx + 1;
    }
  }

  /** gbms_msc_temp_idx: the row whose range holds the temperature, clamped at both ends. */
  method TempIdx(limits: seq<int>, temp: int) returns (idx: nat)
    requires forall i, j | 0 <= i < j < |limits| :: limits[i] <= limits[j]
    ensures idx == 0 || idx <= |limits| - 2
    ensures forall k | 1 <= k <= idx :: limits[k] <= temp
    ensures forall k | idx < k < |limits| - 1 :: temp < limits[k]
  {
    idx := 0;
    while idx < |limits| - 2 && temp >= limits[idx + 1]
      invariant idx == 0 || idx <= |limits| - 2
      invariant forall k | 1 <= k <= idx :: limits[k] <= temp
    {
      idx := idx + 1;
    }
  }

  // ------------------------------------------------------------- float voltage

  /** The profile values that rounding uses. */
  datatype Limits = Limits(resolution: int, marginDpct: int, dcRatio: int, lastFv: int) {
    ghost predicate Ok() {
      0 < resolution < TWO31 && 0 <= marginDpct < TWO32 && 0 <= dcRatio < TWO32 && 0 < lastFv < TWO31
    }

    /** The init pass leaves the last tier on a multiple of the resolution. */
    ghost predicate Aligned()
      requires resolution != 0
    {
      lastFv % resolution == 0
    }
  }

  function DcMax(p: Limits, vtier: nat, cc: nat): int {
    Wrap32(vtier + cc / 1000 * p.dcRatio)
  }

  /** The upper bound of the request; 0 stands for none. */
  function FvMax(p: Limits, vtier: nat, cc: nat, allowHigher: bool): int {
    if cc == 0 then Wrap32(vtier / 1000 * p.marginDpct)
    else if !allowHigher && DcMax(p, vtier, cc) >= p.lastFv then Wrap32(p.lastFv - p.resolution)
    else DcMax(p, vtier, cc)
  }

  function Clamped(fv: int, fvMax: int): int {
    if fvMax != 0 && fv > fvMax then fvMax else fv
  }

  /** The multiple of the resolution nearest to x, the upper one in a tie. */
  ghost predicate IsNearest(x: int, res: int, r: int)
    requires res > 0
  {
    r % res == 0 && -res < 2 * (r - x) <= res
  }

  lemma RoundNearest(x: int, res: int)
    requires 0 < res && 0 <= x
    ensures IsNearest(x, res, x + res / 2 - (x + res / 2) % res)
  {
    var y := x + res / 2;
    DivExact(y / res, res);
    assert y - y % res == (y / res) * res;
  }

  /** The bounds as the design gives them: a margin above the tier without direct charging; with it
      the tier plus the drop over the charger's impedance, but below the last tier unless more is
      allowed. A product or sum that wraps to 0 is no bound. */
  lemma BoundMeans(p: Limits, vtier: nat, cc: nat, allowHigher: bool)
    requires p.Ok()
    ensures cc == 0 && vtier / 1000 * p.marginDpct < TWO32 ==>
              FvMax(p, vtier, cc, allowHigher) == vtier / 1000 * p.marginDpct
    ensures var dc := vtier + cc / 1000 * p.dcRatio;
            cc > 0 && dc < TWO32 ==>
              && (allowHigher || dc < p.lastFv ==> FvMax(p, vtier, cc, allowHigher) == dc)
              && (!allowHigher && p.lastFv <= dc && p.resolution <= p.lastFv ==>
                    FvMax(p, vtier, cc, allowHigher) == p.lastFv - p.resolution)
  {
    WrapsNot(vtier / 1000 * p.marginDpct);
    WrapsNot(vtier + cc / 1000 * p.dcRatio);
  }

  lemma WrapsNot(x: int)
    ensures 0 <= x < TWO32 ==> Wrap32(x) == x
  {
  }

  /** Without direct charging a request is rounded to at most half a step above the margin over its
      tier, and one within the margin is only rounded. */
  lemma MarginBounds(p: Limits, vtier: nat, fv: nat, r: int)
    requires p.Ok() && 0 < vtier / 1000 * p.marginDpct < TWO32
    requires IsNearest(Clamped(fv, FvMax(p, vtier, 0, false)), p.resolution, r)
    ensures 2 * (r - vtier / 1000 * p.marginDpct) <= p.resolution
    ensures fv <= vtier / 1000 * p.marginDpct ==> IsNearest(fv, p.resolution, r)
  {
    BoundMeans(p, vtier, 0, false);
  }

  /** gbms_msc_round_fv_uv: the request, clamped, to the nearest step. */
  method RoundFv(p: Limits, vtier: nat, fv: nat, cc: nat, allowHigher: bool) returns (result: int)
    requires p.Ok() && fv + p.resolution < TWO31
    ensures IsNearest(Clamped(fv, FvMax(p, vtier, cc, allowHigher)), p.resolution, result)
  {
    var fvUvMax := Wrap32(vtier / 1000 * p.marginDpct);
    var dcFvUvMax := Wrap32(vtier + cc / 1000 * p.dcRatio);
    var fvMax: int;
    if cc == 0 {
      fvMax := fvUvMax;
    } else if !allowHigher && dcFvUvMax >= p.lastFv {
      fvMax := Wrap32(p.lastFv - p.resolution);
    } else {
      fvMax := dcFvUvMax;
    }
    assert fvMax == FvMax(p, vtier, cc, allowHigher);
    var rounded: int := fv;
    if fvMax != 0 && rounded > fvMax {
      rounded := fvMax;
    }
    RoundNearest(rounded, p.resolution);
    rounded := rounded + p.resolution / 2;
    result := rounded - rounded % p.resolution;
  }

  /** Multiples of the resolution less than one step apart are in order. */
  lemma MultiplesOrdered(a: int, b: int, res: int)
    requires 0 < res && a % res == 0 && b % res == 0 && a < b + res
    ensures a <= b
  {
    if b / res + 1 <= a / res {
      MulMono(b / res + 1, a / res, res);
      assert false;
    }
    MulMono(a / res, b / res, res);
  }

  /** Direct charging without permission for more has no bound when the bound derived from tier
      and current is 0 itself, or reaches a last tier that is a single step. */
  predicate Unbounded(p: Limits, vtier: nat, cc: nat) {
    DcMax(p, vtier, cc) == 0 || (p.lastFv == p.resolution && DcMax(p, vtier, cc) >= p.lastFv)
  }

  lemma BoundBelowLast(p: Limits, vtier: nat, cc: nat)
    requires p.Ok() && p.Aligned() && 0 < cc
    ensures if Unbounded(p, vtier, cc) then FvMax(p, vtier, cc, false) == 0
            else 0 < FvMax(p, vtier, cc, false) < p.lastFv
  {
    MultiplesOrdered(p.resolution, p.lastFv, p.resolution);
  }

  /** The nearest step to x is above a multiple `last` exactly when x is half a step above it. */
  lemma NearestAbove(x: int, res: int, last: int, r: int)
    requires 0 < res && last % res == 0 && IsNearest(x, res, r)
    ensures r > last <==> x >= last + res - res / 2
  {
    if r > last {
      MultiplesApart(last, r, res);
    } else {
      assert 2 * x < 2 * last + res;
    }
  }

  lemma MultiplesApart(a: int, b: int, res: int)
    requires 0 < res && a % res == 0 && b % res == 0 && a < b
    ensures a + res <= b
  {
    if b < a + res {
      MultiplesOrdered(b, a, res);
      assert false;
    }
  }

  /** Direct charging without permission for more: no request that an int can hold is rounded
      above the last tier, if and only if there is a bound, or there is none but an int has no
      room for a request half a step above the last tier. */
  lemma RoundBelowLastIff(p: Limits, vtier: nat, cc: nat)
    requires p.Ok() && p.Aligned() && 0 < cc
    ensures (forall fv: nat, r | fv + p.resolution < TWO31 &&
                                 IsNearest(Clamped(fv, FvMax(p, vtier, cc, false)), p.resolution, r) :: r <= p.lastFv)
            <==> !(Unbounded(p, vtier, cc) && p.lastFv + 2 * p.resolution - p.resolution / 2 < TWO31)
  {
    var res, last, bound := p.resolution, p.lastFv, FvMax(p, vtier, cc, false);
    BoundBelowLast(p, vtier, cc);
    if Unbounded(p, vtier, cc) && last + 2 * res - res / 2 < TWO31 {
      var fv := last + res - res / 2;
      var r := fv + res / 2 - (fv + res / 2) % res;
      RoundNearest(fv, res);
      NearestAbove(fv, res, last, r);
      assert IsNearest(Clamped(fv, bound), res, r);
    } else {
      forall fv: nat, r | fv + res < TWO31 && IsNearest(Clamped(fv, bound), res, r)
        ensures r <= last
      {
        NearestAbove(Clamped(fv, bound), res, last, r);
      }
    }
  }

  /** Both ways to lose the bound: no tier and less than 1000 uA, or a last tier of one step. */
  lemma NoBoundExamples()
    ensures var p := Limits(10000, 1020, 20, 4200000);
            DcMax(p, 0, 500) == 0 && Clamped(5000000, FvMax(p, 0, 500, false)) == 5000000 > p.lastFv
    ensures var p := Limits(10000, 1020, 20, 10000);
            DcMax(p, 10000, 1) >= p.lastFv && Clamped(5000000, FvMax(p, 10000, 1, false)) == 5000000 > p.lastFv
  {
  }

  /** The sanity pass of gbms_init_chg_profile_internal: every limit down to a multiple of the
      resolution. */
  method AlignTiers(volt: array<int>, res: int)
    requires 0 < res && forall i | 0 <= i < volt.Length :: 0 <= volt[i]
    modifies volt
    ensures forall i | 0 <= i < volt.Length :: volt[i] % res == 0 && volt[i] <= old(volt[i]) < volt[i] + res
  {
    var vi := 0;
    while vi < volt.Length
      invariant 0 <= vi <= volt.Length
      invariant forall i | 0 <= i < vi :: volt[i] % res == 0 && volt[i] <= old(volt[i]) < volt[i] + res
      invariant forall i | vi <= i < volt.Length :: volt[i] == old(volt[i])
    {
      DivExact(volt[vi] / res, res);
      volt[vi] := volt[vi] / res * res;
      vi := vi + 1;
    }
  }
}
