/** Charging statistics of one voltage tier, gbms_stats_update_tier: running minimum, maximum
    and time-weighted sums, kept in the C record's own field widths. */
module TierStats {
  import opened Machine

  const MSC_STATES_COUNT: nat := 21

  datatype ChargeType = Fast | TaperExt | Other

  datatype Sample = Sample(
    tempIdx: int, ibatt: int, temp: int, elap: int, cc: int, icl: int,
    chargeType: ChargeType, mscState: int, socIn: int)
  {
    /** The ranges in which no field wraps; time is bounded over a whole history instead. */
    predicate Fits() {
      && -0x8000 <= ibatt < 0x8000 && -0x8000 <= temp < 0x8000 && 0 <= icl < 0x1_0000
      && 0 <= socIn < 0x8000 && 0 <= elap && -0x80 <= tempIdx < 0x80
    }

    predicate Books() {
      0 <= mscState < MSC_STATES_COUNT
    }
  }

  // ------------------------------------------------------------- the reference: sums over a history

  datatype Quantity = Temp | Ibatt | Icl

  function Value(s: Sample, q: Quantity): int {
    match q
    case Temp => s.temp
    case Ibatt => s.ibatt
    case Icl => s.icl
  }

  /** The samples a tier has seen, the latest outermost. */
  datatype History = Empty | After(before: History, last: Sample)

  function First(h: History): Sample
    requires h.After?
  {
    if h.before.Empty? then h.last else First(h.before)
  }

  function Length(h: History): nat {
    if h.Empty? then 0 else Length(h.before) + 1
  }

  /** Time covered by all samples but the first, which only seeds the tier. */
  function Elapsed(h: History): int {
    if h.Empty? || h.before.Empty? then 0 else Elapsed(h.before) + h.last.elap
  }

  /** The same time, split by charge type. */
  function ElapsedIn(h: History, t: ChargeType): int {
    if h.Empty? || h.before.Empty? then 0
    else ElapsedIn(h.before, t) + if h.last.chargeType == t then h.last.elap else 0
  }

  /** The integral of a quantity over that time. */
  function Integral(h: History, q: Quantity): int {
    if h.Empty? || h.before.Empty? then 0 else Integral(h.before, q) + Value(h.last, q) * h.last.elap
  }

  /** Time that falls in a valid multi-step state, the seed's time included. */
  function Booked(h: History): int {
    if h.Empty? then 0 else Booked(h.before) + if h.last.Books() then h.last.elap else 0
  }

  /** Time and number of samples of one multi-step state. */
  function BookedIn(h: History, state: int): int {
    if h.Empty? then 0 else BookedIn(h.before, state) + if h.last.mscState == state then h.last.elap else 0
  }

  function CountIn(h: History, state: int): nat {
    if h.Empty? then 0 else CountIn(h.before, state) + if h.last.mscState == state then 1 else 0
  }

  predicate AllFit(h: History) {
    h.After? ==> h.last.Fits() && AllFit(h.before)
  }

  predicate AllBook(h: History) {
    h.After? ==> h.last.Books() && AllBook(h.before)
  }

  /** Every sample is in range, and the total time fits a u32. */
  predicate InRange(h: History) {
    AllFit(h) && (h.After? ==> First(h).elap + Elapsed(h) < TWO32)
  }

  ghost predicate Within(h: History, q: Quantity, lo: int, hi: int) {
    h.After? ==> lo <= Value(h.last, q) <= hi && Within(h.before, q, lo, hi)
  }

  lemma {:induction false} WithinWiden(h: History, q: Quantity, lo: int, hi: int, lo': int, hi': int)
    requires Within(h, q, lo, hi) && lo' <= lo && hi <= hi'
    ensures Within(h, q, lo', hi')
  {
    if h.After? {
      WithinWiden(h.before, q, lo, hi, lo', hi');
    }
  }

  lemma {:induction false} ElapsedFacts(h: History)
    requires AllFit(h)
    ensures 0 <= Elapsed(h) && (h.After? ==> First(h).Fits())
    ensures Elapsed(h) == ElapsedIn(h, Fast) + ElapsedIn(h, TaperExt) + ElapsedIn(h, Other)
    ensures 0 <= ElapsedIn(h, Fast) && 0 <= ElapsedIn(h, TaperExt) && 0 <= ElapsedIn(h, Other)
    ensures 0 <= Booked(h) && (h.After? ==> Booked(h) <= First(h).elap + Elapsed(h))
  {
    if h.After? {
      ElapsedFacts(h.before);
    }
  }

  /** With valid states only, the time booked per state adds up to the averaged time plus the
      seed sample's own. */
  lemma {:induction false} BookedIsElapsedPlusSeed(h: History)
    requires h.After? && AllBook(h)
    ensures Booked(h) == First(h).elap + Elapsed(h)
  {
    if h.before.After? {
      BookedIsElapsedPlusSeed(h.before);
    }
  }

  lemma Distribute(a: int, b: int, c: int)
    ensures a * (b + c) == a * b + a * c
  {
  }

  /** The integral lies between the extremes times the time. */
  lemma {:induction false} IntegralBounds(h: History, q: Quantity, lo: int, hi: int)
    requires AllFit(h) && Within(h, q, lo, hi)
    ensures lo * Elapsed(h) <= Integral(h, q) <= hi * Elapsed(h)
  {
    if h.After? && h.before.After? {
      var v, e := Value(h.last, q), h.last.elap;
      IntegralBounds(h.before, q, lo, hi);
      MulMono(lo, v, e);
      MulMono(v, hi, e);
      Distribute(lo, Elapsed(h.before), e);
      Distribute(hi, Elapsed(h.before), e);
    }
  }

  /** A truncated average of a bounded integral stays within the bounds. */
  lemma AverageWithin(lo: int, hi: int, sum: int, time: int)
    requires 0 < time && lo * time <= sum <= hi * time
    ensures lo <= Trunc(sum, time) <= hi
  {
    if sum >= 0 {
      DivWithin(lo, hi, sum, time);
    } else {
      DivWithin(-hi, -lo, -sum, time);
    }
  }

  lemma DivWithin(lo: int, hi: int, sum: int, time: int)
    requires 0 < time && lo * time <= sum <= hi * time
    ensures lo <= sum / time <= hi
  {
    var q := sum / time;
    if q < lo {
      MulMono(q + 1, lo, time);
      assert false;
    }
    if hi < q {
      MulMono(hi + 1, q, time);
      assert false;
    }
  }

  // ------------------------------------------------------------- one tracked quantity

  /** Extremes and time-weighted sum of one quantity. */
  datatype Track = Track(min: int, max: int, sum: int) {

    function Seed(v: int): Track {
      Track(v, v, sum)
    }

    function Add(v: int, elap: int): Track {
      Track(if v < min then v else min, if v > max then v else max, Signed64(sum + v * elap))
    }

    /** The sum is the integral; the extremes bound every sample and are values of samples. */
    ghost predicate Follows(h: History, q: Quantity) {
      && sum == Integral(h, q)
      && (h.After? ==> Within(h, q, min, max) && Attains(h, q, min) && Attains(h, q, max))
    }
  }

  predicate Attains(h: History, q: Quantity, v: int) {
    h.After? && (Value(h.last, q) == v || Attains(h.before, q, v))
  }

  lemma AddFollows(t: Track, h: History, s: Sample, q: Quantity)
    requires h.After? && t.Follows(h, q) && InRange(After(h, s))
    ensures t.Add(Value(s, q), s.elap).Follows(After(h, s), q)
  {
    var g, t' := After(h, s), t.Add(Value(s, q), s.elap);
    WithinWiden(h, q, t.min, t.max, t'.min, t'.max);
    ElapsedFacts(g);
    FitsWithin(g, q);
    IntegralBounds(g, q, -0x8000, 0xFFFF);
  }

  lemma {:induction false} FitsWithin(h: History, q: Quantity)
    requires AllFit(h)
    ensures Within(h, q, -0x8000, 0xFFFF)
  {
    if h.After? {
      FitsWithin(h.before, q);
    }
  }

  /** The average as the C code takes it: the time is narrowed to the signed 32-bit divisor of
      div_s64. */
  function Average(sum: int, time: int): int
    requires 0 < time < TWO32
  {
    Trunc(sum, Signed32(time))
  }

  /** Below 2^31 seconds it is the sum divided by the time, with the fraction cut off. */
  lemma AverageCutsOff(sum: int, time: int)
    requires 0 < time < TWO31
    ensures IsCutOff(Average(sum, time), sum, time)
  {
    SignedIsItself(time);
    TruncCutsOff(sum, time);
  }

  lemma NarrowAverage(lo: int, hi: int, sum: int, time: int)
    requires 0 < time < TWO31 && lo * time <= sum <= hi * time
    ensures lo <= Average(sum, time) <= hi
  {
    SignedIsItself(time);
    AverageWithin(lo, hi, sum, time);
  }

  lemma SignedIsItself(time: nat)
    requires time < TWO31
    ensures Signed32(time) == time
  {
  }

  /** For every sample history: minimum times time is at most the sum, the sum at most maximum
      times time, and so the printed average lies between the printed extremes, as long as the
      time fits the divisor. */
  lemma AverageBetweenExtremes(h: History, q: Quantity, t: Track)
    requires h.After? && InRange(h) && t.Follows(h, q)
    ensures t.min * Elapsed(h) <= t.sum <= t.max * Elapsed(h)
    ensures 0 < Elapsed(h) < TWO31 ==> t.min <= Average(t.sum, Elapsed(h)) <= t.max
  {
    var time := Elapsed(h);
    IntegralBounds(h, q, t.min, t.max);
    if 0 < time < TWO31 {
      NarrowAverage(t.min, t.max, t.sum, time);
    }
  }

  /** Two equal samples, the second of which lasts `time`. */
  function Steady(time: nat): History {
    var s := Sample(0, 1, 1, 0, 0, 1, Other, 0, 0);
    After(After(Empty, s), s.(elap := time))
  }

  /** From 2^31 seconds on the divisor is negative, and a steady 1 is averaged to less than 1. */
  lemma SteadyFails(time: nat, q: Quantity)
    requires TWO31 <= time < TWO32
    ensures InRange(Steady(time)) && Elapsed(Steady(time)) == time && Track(1, 1, time).Follows(Steady(time), q)
    ensures Average(time, time) < 1
  {
    var h := Steady(time);
    assert AllFit(h.before.before) && AllFit(h.before) && AllFit(h);
    assert Elapsed(h.before) == 0 && Integral(h.before, q) == 0;
    assert Within(h.before.before, q, 1, 1) && Within(h.before, q, 1, 1);
    assert Attains(h, q, 1);
    var d := TWO32 - time;
    assert Signed32(time) == -d;
    DivMono(0, time, d);
  }

  /** Exactly how long a tier may last: for a total time the printed average lies between the
      printed extremes, whatever the samples were, if and only if it is below 2^31 seconds. */
  lemma AverageHoldsIff(time: nat, q: Quantity)
    requires 0 < time < TWO32
    ensures (forall h: History, t: Track | h.After? && InRange(h) && t.Follows(h, q) && Elapsed(h) == time ::
               t.min <= Average(t.sum, time) <= t.max)
            <==> time < TWO31
  {
    if time < TWO31 {
      forall h: History, t: Track | h.After? && InRange(h) && t.Follows(h, q) && Elapsed(h) == time
        ensures t.min <= Average(t.sum, time) <= t.max
      {
        AverageBetweenExtremes(h, q, t);
      }
    } else {
      SteadyFails(time, q);
      var t := Track(1, 1, time);
      assert t.Follows(Steady(time), q);
    }
  }

  /** One more sample of value v: the sum grows by v times its time, the extremes widen to v. */
  ghost predicate Took(before: Track, after: Track, first: bool, v: int, elap: int) {
    if first then after.min == v && after.max == v && after.sum == before.sum
    else after.min == Min(before.min, v) && after.max == Max(before.max, v) && after.sum == before.sum + v * elap
  }

  lemma {:induction false} AttainsWithin(h: History, q: Quantity, v: int, lo: int, hi: int)
    requires Within(h, q, lo, hi) && Attains(h, q, v)
    ensures lo <= v <= hi
  {
    if Value(h.last, q) != v {
      AttainsWithin(h.before, q, v, lo, hi);
    }
  }

  /** A record that follows a history is the only one: so one more sample changes it like this. */
  lemma FollowsTook(before: Track, after: Track, h: History, s: Sample, q: Quantity)
    requires before.Follows(h, q) && after.Follows(After(h, s), q)
    ensures Took(before, after, h.Empty?, Value(s, q), s.elap)
  {
    var g, v := After(h, s), Value(s, q);
    if h.Empty? {
      AttainsWithin(g, q, after.min, v, v);
      AttainsWithin(g, q, after.max, v, v);
    } else {
      var lo, hi := Min(before.min, v), Max(before.max, v);
      WithinWiden(h, q, before.min, before.max, lo, hi);
      assert Within(g, q, lo, hi) && Within(h, q, after.min, after.max);
      AttainsWithin(g, q, after.min, lo, hi);
      AttainsWithin(g, q, after.max, lo, hi);
      AttainsWithin(h, q, before.min, after.min, after.max);
      AttainsWithin(h, q, before.max, after.min, after.max);
    }
  }

  // ------------------------------------------------------------- time per state

  function Sum(s: seq<int>): int {
    if s == [] then 0 else s[0] + Sum(s[1..])
  }

  lemma {:induction false} SumUpdate(s: seq<int>, i: nat, x: int)
    requires i < |s|
    ensures Sum(s[i := x]) == Sum(s) - s[i] + x
  {
    if i == 0 {
      assert s[0 := x][1..] == s[1..];
    } else {
      SumUpdate(s[1..], i - 1, x);
      assert s[i := x][1..] == s[1..][i - 1 := x];
    }
  }

  lemma {:induction false} SumBounds(s: seq<int>, i: nat)
    requires i < |s| && forall k | 0 <= k < |s| :: 0 <= s[k]
    ensures s[i] <= Sum(s)
  {
    if i > 0 {
      SumBounds(s[1..], i - 1);
    } else if |s| > 1 {
      SumBounds(s[1..], 0);
    }
  }

  lemma {:induction false} SumZeros(n: nat)
    ensures Sum(seq(n, _ => 0)) == 0
  {
    if n > 0 {
      SumZeros(n - 1);
      assert seq(n, _ => 0)[1..] == seq(n - 1, _ => 0);
    }
  }

  /** No part of the booked time can wrap while the whole of it fits. */
  lemma NoTimeWrap(h: History, s: Sample, part: int)
    requires InRange(After(h, s)) && s.Books() && 0 <= part <= Booked(h)
    ensures Wrap32(part + s.elap) == part + s.elap
  {
    ElapsedFacts(After(h, s));
  }

  /** Nor can the bucket that a sample's time goes to. */
  lemma BucketFits(h: History, s: Sample)
    requires h.After? && InRange(After(h, s))
    ensures 0 <= ElapsedIn(h, s.chargeType)
    ensures Wrap32(ElapsedIn(h, s.chargeType) + s.elap) == ElapsedIn(h, s.chargeType) + s.elap
  {
    var g := After(h, s);
    ElapsedFacts(h);
    ElapsedFacts(g);
    assert ElapsedIn(g, s.chargeType) <= Elapsed(g) < TWO32;
  }

  /** Per-state counters and times of a history. */
  ghost predicate StatesOk(cnt: seq<int>, elap: seq<int>, h: History) {
    && |cnt| == |elap| == MSC_STATES_COUNT
    && (forall k | 0 <= k < MSC_STATES_COUNT :: 0 <= elap[k] == BookedIn(h, k))
    && (forall k | 0 <= k < MSC_STATES_COUNT :: cnt[k] == Wrap16(CountIn(h, k)))
    && Sum(elap) == Booked(h)
  }

  lemma BookOk(cnt: seq<int>, elap: seq<int>, h: History, s: Sample)
    requires StatesOk(cnt, elap, h) && InRange(After(h, s)) && s.Books()
    ensures StatesOk(cnt[s.mscState := Wrap16(cnt[s.mscState] + 1)],
                     elap[s.mscState := Wrap32(elap[s.mscState] + s.elap)], After(h, s))
  {
    var k := s.mscState;
    SumBounds(elap, k);
    NoTimeWrap(h, s, elap[k]);
    SumUpdate(elap, k, elap[k] + s.elap);
    ModAdd(CountIn(h, k), 1, TWO16);
  }

  /** The temperature index of a history that never changed it, -1 once it did. */
  function CommonIdx(h: History): int {
    if h.Empty? then -1
    else if h.before.Empty? then h.last.tempIdx
    else if CommonIdx(h.before) == h.last.tempIdx then h.last.tempIdx else -1
  }

  // ------------------------------------------------------------- the record

  class Tier {
    var tempIdx: int
    var socIn: int
    var ccIn: int
    var ccTotal: int
    var timeFast: int
    var timeTaper: int
    var timeOther: int
    var tempIn: int
    var temp: Track              // temp_min, temp_max, temp_sum
    var ibatt: Track             // ibatt_min, ibatt_max, ibatt_sum
    var icl: Track               // icl_min, icl_max, icl_sum
    var sampleCount: int
    var mscCnt: seq<int>
    var mscElap: seq<int>
    ghost var history: History

    ghost predicate TimesFollow(h: History)
      reads this`timeFast, this`timeTaper, this`timeOther
    {
      timeFast == ElapsedIn(h, Fast) && timeTaper == ElapsedIn(h, TaperExt) && timeOther == ElapsedIn(h, Other)
    }

    ghost predicate StatesFollow(h: History)
      reads this`mscCnt, this`mscElap
    {
      StatesOk(mscCnt, mscElap, h)
    }

    ghost predicate TracksFollow(h: History)
      reads this`temp, this`ibatt, this`icl
    {
      temp.Follows(h, Temp) && ibatt.Follows(h, Ibatt) && icl.Follows(h, Icl)
    }

    ghost predicate EntryFollows(h: History)
      reads this`tempIdx, this`socIn, this`ccIn, this`tempIn, this`ccTotal
    {
      && tempIdx == CommonIdx(h)
      && (if h.Empty? then socIn == -1 else socIn == First(h).socIn)
      && (h.After? ==> ccIn == Wrap16(First(h).cc) && tempIn == First(h).temp)
      && ccTotal == (if h.Empty? || h.before.Empty? then 0 else Wrap16(h.last.cc - ccIn))
    }

    /** The record is the summary of the samples seen so far. */
    ghost predicate Valid()
      reads this
    {
      && InRange(history)
      && TimesFollow(history) && StatesFollow(history) && TracksFollow(history) && EntryFollows(history)
      && sampleCount == Wrap32(Length(history))
    }

    constructor ()
      ensures Valid() && history == Empty
    {
      tempIdx, socIn, ccIn, ccTotal, tempIn := -1, -1, 0, 0, 0;
      timeFast, timeTaper, timeOther, sampleCount := 0, 0, 0, 0;
      temp, ibatt, icl := Track(0, 0, 0), Track(0, 0, 0), Track(0, 0, 0);
      mscCnt, mscElap := seq(MSC_STATES_COUNT, _ => 0), seq(MSC_STATES_COUNT, _ => 0);
      history := Empty;
      new;
      SumZeros(MSC_STATES_COUNT);
    }

    /** gbms_chg_stats_tier: an unknown state books nothing. */
    method Book(mscState: int, elap: int, ghost s: Sample)
      requires StatesFollow(history) && InRange(After(history, s)) && s.mscState == mscState && s.elap == elap
      modifies this`mscCnt, this`mscElap
      ensures StatesFollow(After(history, s))
    {
      if mscState < 0 || mscState >= MSC_STATES_COUNT {
        return;
      }
      BookOk(mscCnt, mscElap, history, s);
      mscCnt := mscCnt[mscState := Wrap16(mscCnt[mscState] + 1)];
      mscElap := mscElap[mscState := Wrap32(mscElap[mscState] + elap)];
    }

    method AddTime(chargeType: ChargeType, elap: int, ghost s: Sample)
      requires history.After? && TimesFollow(history) && InRange(After(history, s))
      requires s.chargeType == chargeType && s.elap == elap
      modifies this`timeFast, this`timeTaper, this`timeOther
      ensures TimesFollow(After(history, s))
    {
      BucketFits(history, s);
      if chargeType.Fast? {
        timeFast := Wrap32(timeFast + elap);
      } else if chargeType.TaperExt? {
        timeTaper := Wrap32(timeTaper + elap);
      } else {
        timeOther := Wrap32(timeOther + elap);
      }
    }

    method Accumulate(t: Track, v: int, elap: int, ghost s: Sample, ghost q: Quantity) returns (t': Track)
      requires history.After? && InRange(After(history, s)) && t.Follows(history, q)
      requires v == Value(s, q) && elap == s.elap
      ensures t'.Follows(After(history, s), q)
    {
      AddFollows(t, history, s, q);
      t' := t.Add(v, elap);
    }

    /** The first sample sets the entry values and the extremes; its time is not averaged. */
    method SeedTier(s: Sample)
      requires s.Fits() && TracksFollow(Empty)
      modifies this`tempIdx, this`tempIn, this`socIn, this`ccIn, this`ccTotal, this`temp, this`ibatt, this`icl
      ensures TracksFollow(After(Empty, s)) && EntryFollows(After(Empty, s))
    {
      tempIdx, tempIn := Signed8(s.tempIdx), Signed16(s.temp);
      temp, ibatt, icl := temp.Seed(Signed16(s.temp)), ibatt.Seed(Signed16(s.ibatt)), icl.Seed(Wrap16(s.icl));
      socIn, ccIn, ccTotal := Signed16(s.socIn), Wrap16(s.cc), 0;
    }

    /** Every later sample widens the extremes and adds its time-weighted values. */
    method AddSample(s: Sample)
      requires history.After? && InRange(After(history, s)) && TracksFollow(history) && EntryFollows(history)
      modifies this`tempIdx, this`ccTotal, this`temp, this`ibatt, this`icl
      ensures TracksFollow(After(history, s)) && EntryFollows(After(history, s))
    {
      if s.tempIdx != tempIdx {
        tempIdx := -1;
      }
      temp := Accumulate(temp, Signed16(s.temp), s.elap, s, Temp);
      icl := Accumulate(icl, Wrap16(s.icl), s.elap, s, Icl);
      ibatt := Accumulate(ibatt, Signed16(s.ibatt), s.elap, s, Ibatt);
      ccTotal := Wrap16(s.cc - ccIn);
    }

    /** Everything but the bookkeeping per state: the first sample seeds, the others add. */
    method Absorb(s: Sample)
      requires InRange(history) && InRange(After(history, s))
      requires TimesFollow(history) && TracksFollow(history) && EntryFollows(history)
      modifies this`tempIdx, this`tempIn, this`socIn, this`ccIn, this`ccTotal, this`temp, this`ibatt, this`icl
      modifies this`timeFast, this`timeTaper, this`timeOther
      ensures TimesFollow(After(history, s)) && TracksFollow(After(history, s)) && EntryFollows(After(history, s))
    {
      if socIn == -1 {
        assert history.Empty? by { ElapsedFacts(history); }
        SeedTier(s);
      } else {
        AddTime(s.chargeType, s.elap, s);
        AddSample(s);
      }
    }

    /** gbms_stats_update_tier. */
    method Update(s: Sample)
      requires Valid() && InRange(After(history, s))
      modifies this
      ensures Valid() && history == After(old(history), s)
      ensures Took(old(temp), temp, old(history).Empty?, s.temp, s.elap)
      ensures Took(old(ibatt), ibatt, old(history).Empty?, s.ibatt, s.elap)
      ensures Took(old(icl), icl, old(history).Empty?, s.icl, s.elap)
      ensures old(history).After? ==>
                && timeFast == old(timeFast) + (if s.chargeType.Fast? then s.elap else 0)
                && timeTaper == old(timeTaper) + (if s.chargeType.TaperExt? then s.elap else 0)
                && timeOther == old(timeOther) + (if s.chargeType.Other? then s.elap else 0)
    {
      Book(s.mscState, s.elap, s);
      Count();
      Absorb(s);
      FollowsTook(old(temp), temp, history, s, Temp);
      FollowsTook(old(ibatt), ibatt, history, s, Ibatt);
      FollowsTook(old(icl), icl, history, s, Icl);
      history := After(history, s);
    }

    method Count()
      modifies this`sampleCount
      ensures old(sampleCount) == Wrap32(Length(history)) ==> sampleCount == Wrap32(Length(history) + 1)
    {
      sampleCount := Wrap32(sampleCount + 1);
    }

    method TotalTime() returns (time: nat)
      requires InRange(history) && TimesFollow(history)
      ensures time == Elapsed(history) < TWO32
    {
      ElapsedFacts(history);
      time := Wrap32(timeFast + timeTaper + timeOther);
    }

    /** The time and the three averages that gbms_tier_stats_cstr prints. */
    method Averages() returns (time: nat, tempAvg: int, ibattAvg: int, iclAvg: int)
      requires Valid()
      ensures time == Elapsed(history) < TWO32
      ensures time == 0 ==> tempAvg == ibattAvg == iclAvg == 0
      ensures time > 0 ==> tempAvg == Average(Integral(history, Temp), time)
      ensures time > 0 ==> ibattAvg == Average(Integral(history, Ibatt), time)
      ensures time > 0 ==> iclAvg == Average(Integral(history, Icl), time)
      ensures 0 < time < TWO31 ==> temp.min <= tempAvg <= temp.max && IsCutOff(tempAvg, temp.sum, time)
      ensures 0 < time < TWO31 ==> ibatt.min <= ibattAvg <= ibatt.max && IsCutOff(ibattAvg, ibatt.sum, time)
      ensures 0 < time < TWO31 ==> icl.min <= iclAvg <= icl.max && IsCutOff(iclAvg, icl.sum, time)
    {
      time := TotalTime();
      if time == 0 {
        return 0, 0, 0, 0;
      }
      tempAvg := Mean(temp, time, Temp);
      ibattAvg := Mean(ibatt, time, Ibatt);
      iclAvg := Mean(icl, time, Icl);
    }

    method Mean(t: Track, time: nat, ghost q: Quantity) returns (avg: int)
      requires history.After? && InRange(history) && t.Follows(history, q) && 0 < time == Elapsed(history) < TWO32
      ensures avg == Average(Integral(history, q), time)
      ensures time < TWO31 ==> t.min <= avg <= t.max && IsCutOff(avg, t.sum, time)
    {
      AverageBetweenExtremes(history, q, t);
      if time < TWO31 {
        AverageCutsOff(t.sum, time);
      }
      avg := Trunc(t.sum, Signed32(time));
    }
  }
}
