/** The playback buffer: a ring of samples, a histogram of fill levels, and the decision, at most
    once every twelve seconds, to drop samples that have been sitting in the buffer. */
module PlaybackBuffer {
  import opened Arithmetic

  const AUDIO_BUFFER_MS := 3000
  const BUCKETS := 30
  const DECISION_PERIOD_MS := 12000
  const GENERATIONS := 0x1_0000_0000_0000_0000

  /** A recorded fill level, in samples, at the sample rate then in force. */
  datatype Level = Level(having: nat, rate: nat)

  /** The tenth of a second that a level lies in; the last bucket takes all from 2.9 s on. */
  function Bucket(having: nat, rate: nat): (i: nat)
    requires rate > 0
    ensures i < BUCKETS && i * rate <= having * 10 && (i < 29 ==> having * 10 < (i + 1) * rate)
  {
    var i := having * 10 / rate;
    MulLeIffLeDiv(i, rate, having * 10);
    MulLeIffLeDiv(i + 1, rate, having * 10);
    MulLeIffLeDiv(29, rate, having * 10);
    if i > 29 then 29 else i
  }

  predicate Rated(window: seq<Level>) {
    forall i | 0 <= i < |window| :: window[i].rate > 0
  }

  /** How many recorded levels fell into bucket `i`. */
  function Tally(window: seq<Level>, i: nat): nat
    requires Rated(window)
  {
    if window == [] then 0
    else
      var last := window[|window| - 1];
      Tally(window[..|window| - 1], i) + if Bucket(last.having, last.rate) == i then 1 else 0
  }

  lemma {:induction false} TallyCounts(window: seq<Level>, k: nat)
    requires Rated(window) && k < |window|
    ensures Tally(window, Bucket(window[k].having, window[k].rate)) > 0
  {
    if k < |window| - 1 {
      assert window[..|window| - 1][k] == window[k];
      TallyCounts(window[..|window| - 1], k);
    }
  }

  // ---------------------------------------------------------------------------------------------
  // The decision
  // ---------------------------------------------------------------------------------------------

  /** `z` is the lowest bucket in use, or the number of buckets if none is. */
  predicate IsLowest(histogram: seq<nat>, z: nat) {
    && z <= |histogram|
    && (forall j | 0 <= j < z :: histogram[j] == 0)
    && (z < |histogram| ==> histogram[z] > 0)
  }

  /** `m` is the first of the fullest buckets above the bottom one, or 0 if those are all empty. */
  predicate IsPeak(histogram: seq<nat>, m: nat) {
    && m < |histogram|
    && (m == 0 ==> forall j | 1 <= j < |histogram| :: histogram[j] == 0)
    && (m > 0 ==> && histogram[m] > 0
                  && (forall j | 1 <= j < |histogram| :: histogram[j] <= histogram[m])
                  && (forall j | 1 <= j < m :: histogram[j] < histogram[m]))
  }

  /** The histogram loop. It leaves a count only in the peak's bucket; the bottom bucket is emptied
      before it is compared with anything, so it is never the peak unless nothing else is in use. */
  method FindWaterMarks(histogram: array<nat>) returns (zero: nat, max: nat)
    requires histogram.Length == BUCKETS
    modifies histogram
    ensures IsLowest(old(histogram[..]), zero) && IsPeak(old(histogram[..]), max)
    ensures forall j | 0 <= j < BUCKETS && j != max :: histogram[j] == 0
  {
    zero, max := 0, 0;
    ghost var before := histogram[..];
    for i := 0 to BUCKETS
      invariant forall j | i <= j < BUCKETS :: histogram[j] == before[j]
      invariant zero <= i && (forall j | 0 <= j < zero :: before[j] == 0)
      invariant zero < i ==> before[zero] > 0
      invariant max < BUCKETS && (i == 0 ==> max == 0) && (0 < i ==> max < i)
      invariant forall j | 0 <= j < i && j != max :: histogram[j] == 0
      invariant 0 < i && max == 0 ==> histogram[0] == 0
      invariant max > 0 ==> histogram[max] == before[max] > 0
      invariant forall j | 1 <= j < i :: before[j] <= if max == 0 then 0 else before[max]
      invariant forall j | 1 <= j < max :: before[j] < before[max]
    {
      if histogram[i] == 0 && zero == i {
        zero := zero + 1;
      }
      if histogram[i] > histogram[max] {
        histogram[max] := 0;
        max := i;
      } else {
        histogram[i] := 0;
      }
    }
  }

  /** Up to the next even number. */
  function RoundUpEven(x: nat): nat {
    x + 1 - (x + 1) % 2
  }

  const N := 4

  /** The lower of the peak and four times two thirds of the lowest bucket in use. */
  function Mark(lowest: nat, peak: nat): nat {
    var zero := lowest * 2 / 3;
    if peak > zero * N then zero * N else peak
  }

  /** How many samples the water marks call for. */
  function Skip(lowest: nat, peak: nat, capacity: nat): nat {
    RoundUpEven(capacity * Mark(lowest, peak) / (BUCKETS * N))
  }

  /** How many samples a decision drops from a buffer holding `having` of `capacity`. */
  function DropAmount(lowest: nat, peak: nat, capacity: nat, having: nat): nat {
    var skip := Skip(lowest, peak, capacity);
    if peak >= 6 && having > skip * 3 && skip > 0 then skip else 0
  }

  /** The arithmetic of a decision, on the water marks. */
  method SettleDrop(lowest: nat, peak: nat, capacity: nat, having: nat) returns (skip: nat)
    ensures skip == DropAmount(lowest, peak, capacity, having)
  {
    var zero, max := lowest * 2 / 3, peak;
    if max < 6 {
      return 0;
    } else if max > zero * N {
      max := zero * N;
    }
    skip := RoundUpEven(capacity * max / (BUCKETS * N));
    if !(having > skip * 3 && skip > 0) {
      skip := 0;
    }
  }

  lemma MarkBound(zero: nat, mark: nat, rate: nat)
    requires mark <= zero * N
    ensures 10 * (3 * rate * mark / (BUCKETS * N)) <= rate * zero
  {
    var x := 3 * rate * mark;
    MulMonotone(mark, zero * N, 3 * rate);
    assert x <= 12 * (rate * zero) by {
      assert x == mark * (3 * rate) && zero * N * (3 * rate) == 12 * (rate * zero);
    }
    assert x / 120 * 120 <= x;
  }

  /** A drop never reaches down to where the buffer had been empty: measured in time, it is at most
      two thirds of any level recorded in the window, plus one sample of rounding. */
  lemma DropBelowLevel(lowest: nat, peak: nat, rate: nat, having: nat, level: Level)
    requires rate > 0 && level.rate > 0 && lowest <= Bucket(level.having, level.rate)
    requires DropAmount(lowest, peak, 3 * rate, having) > 0
    ensures 3 * (DropAmount(lowest, peak, 3 * rate, having) - 1) * level.rate <= 2 * level.having * rate
  {
    var zero, skip := lowest * 2 / 3, Skip(lowest, peak, 3 * rate);
    MarkBound(zero, Mark(lowest, peak), rate);
    assert 10 * (skip - 1) <= rate * zero;
    MulMonotone(lowest, Bucket(level.having, level.rate), level.rate);
    ScaleUp(skip - 1, rate, zero, lowest, level.having, level.rate);
  }

  lemma ScaleUp(skip: nat, rate: nat, zero: nat, lowest: nat, having: nat, levelRate: nat)
    requires 10 * skip <= rate * zero && 3 * zero <= 2 * lowest && lowest * levelRate <= having * 10
    ensures 3 * skip * levelRate <= 2 * having * rate
  {
    MulMonotone(10 * skip, rate * zero, 3 * levelRate);
    MulMonotone(3 * zero, 2 * lowest, rate * levelRate);
    MulMonotone(lowest * levelRate, having * 10, 2 * rate);
    assert 10 * skip * (3 * levelRate) == 10 * (3 * skip * levelRate);
    assert rate * zero * (3 * levelRate) == 3 * zero * (rate * levelRate);
    assert 2 * lowest * (rate * levelRate) == lowest * levelRate * (2 * rate);
    assert having * 10 * (2 * rate) == 10 * (2 * having * rate);
  }

  /** A drop is even, leaves more than twice as much as it takes, and needs a lowest bucket in use
      above the two lowest and a peak at 600 ms or more. */
  lemma DropConditions(lowest: nat, peak: nat, capacity: nat, having: nat)
    requires DropAmount(lowest, peak, capacity, having) > 0
    ensures var skip := DropAmount(lowest, peak, capacity, having);
            && skip % 2 == 0 && having - skip > 2 * skip && lowest >= 2 && peak >= 6
  {
    var zero := lowest * 2 / 3;
    assert zero == 0 ==> capacity * (zero * N) == 0;
  }

  function Counts(window: seq<Level>): (counts: seq<nat>)
    requires Rated(window)
    ensures |counts| == BUCKETS
  {
    seq(BUCKETS, i requires 0 <= i < BUCKETS => Tally(window, i))
  }

  /** `skip` is what the window calls for, read off its histogram. */
  ghost predicate IsDecision(window: seq<Level>, capacity: nat, having: nat, skip: nat)
    requires Rated(window)
  {
    exists lowest: nat, peak: nat ::
      && IsLowest(Counts(window), lowest) && IsPeak(Counts(window), peak)
      && skip == DropAmount(lowest, peak, capacity, having)
  }

  lemma WaterMarksUnique(histogram: seq<nat>, z: nat, z': nat, m: nat, m': nat)
    requires IsLowest(histogram, z) && IsLowest(histogram, z')
    requires IsPeak(histogram, m) && IsPeak(histogram, m')
    ensures z == z' && m == m'
  {
  }

  lemma DecisionUnique(window: seq<Level>, capacity: nat, having: nat, skip: nat, other: nat)
    requires Rated(window)
    requires IsDecision(window, capacity, having, skip) && IsDecision(window, capacity, having, other)
    ensures skip == other
  {
    var z: nat, m: nat :| IsLowest(Counts(window), z) && IsPeak(Counts(window), m)
                          && skip == DropAmount(z, m, capacity, having);
    var z': nat, m': nat :| IsLowest(Counts(window), z') && IsPeak(Counts(window), m')
                            && other == DropAmount(z', m', capacity, having);
    WaterMarksUnique(Counts(window), z, z', m, m');
  }

  lemma DecisionFits(window: seq<Level>, capacity: nat, having: nat, skip: nat)
    requires Rated(window) && IsDecision(window, capacity, having, skip)
    ensures skip <= having
  {
  }

  /** Bucket `j` is in use, and no other above the bottom one is fuller. */
  ghost predicate IsFullest(window: seq<Level>, j: nat)
    requires Rated(window)
  {
    Tally(window, j) > 0 && forall i: nat | 1 <= i < BUCKETS :: Tally(window, i) <= Tally(window, j)
  }

  lemma PeakIsFullest(window: seq<Level>, peak: nat)
    requires Rated(window) && IsPeak(Counts(window), peak) && peak > 0
    ensures IsFullest(window, peak)
  {
    var counts := Counts(window);
    forall i: nat | 1 <= i < BUCKETS ensures Tally(window, i) <= Tally(window, peak) {
      assert counts[i] <= counts[peak];
    }
  }

  /** What every drop respects, whatever levels and rates the window saw: it is even; more than
      twice as much is left; no level recorded in the window lay in the two lowest buckets; the
      fullest bucket is at 600 ms or more; and, measured in time, the drop is at most two thirds of
      every one of those levels, plus one sample of rounding. */
  lemma DropIsSafe(window: seq<Level>, rate: nat, having: nat, skip: nat)
    requires rate > 0 && Rated(window) && IsDecision(window, 3 * rate, having, skip) && skip > 0
    ensures skip % 2 == 0 && having - skip > 2 * skip
    ensures forall k | 0 <= k < |window| :: Bucket(window[k].having, window[k].rate) >= 2
    ensures exists j: nat | 6 <= j < BUCKETS :: IsFullest(window, j)
    ensures forall k | 0 <= k < |window| ::
              3 * (skip - 1) * window[k].rate <= 2 * window[k].having * rate
  {
    var lowest: nat, peak: nat :| IsLowest(Counts(window), lowest) && IsPeak(Counts(window), peak)
                                  && skip == DropAmount(lowest, peak, 3 * rate, having);
    DropConditions(lowest, peak, 3 * rate, having);
    PeakIsFullest(window, peak);
    forall k | 0 <= k < |window|
      ensures lowest <= Bucket(window[k].having, window[k].rate)
      ensures 3 * (skip - 1) * window[k].rate <= 2 * window[k].having * rate
    {
      LowestIsBelow(window, lowest, k);
      DropBelowLevel(lowest, peak, rate, having, window[k]);
    }
  }

  lemma LowestIsBelow(window: seq<Level>, lowest: nat, k: nat)
    requires Rated(window) && IsLowest(Counts(window), lowest) && k < |window|
    ensures lowest <= Bucket(window[k].having, window[k].rate)
  {
    TallyCounts(window, k);
    assert Counts(window)[Bucket(window[k].having, window[k].rate)] > 0;
  }

  /** With the rate unchanged throughout the window, the drop is at most two thirds of the lowest
      recorded level, plus one sample. */
  lemma DropIsSafeAtOneRate(window: seq<Level>, rate: nat, having: nat, skip: nat, k: nat)
    requires rate > 0 && Rated(window) && IsDecision(window, 3 * rate, having, skip) && skip > 0
    requires k < |window| && window[k].rate == rate
    ensures 3 * (skip - 1) <= 2 * window[k].having
  {
    DropIsSafe(window, rate, having, skip);
    MulLeIffLe(3 * (skip - 1), 2 * window[k].having, rate);
  }

  /** A window in which the bottom bucket is in use calls for no drop, whatever its peak: that the pass
      over the histogram never takes the bottom bucket for the fullest makes no difference. */
  lemma BottomBucketMeansNoDrop(window: seq<Level>, peak: nat, capacity: nat, having: nat, skip: nat)
    requires Rated(window) && Tally(window, 0) > 0
    ensures DropAmount(0, peak, capacity, having) == 0
    ensures IsDecision(window, capacity, having, skip) <==> skip == 0
  {
    var counts := Counts(window);
    var lowest, top := LowestOf(counts), PeakOf(counts);
    assert counts[0] > 0;
    WaterMarksUnique(counts, lowest, 0, top, top);
    NothingToDrop(top, capacity, having);
    NothingToDrop(peak, capacity, having);
    assert IsDecision(window, capacity, having, 0);
    if IsDecision(window, capacity, having, skip) {
      DecisionUnique(window, capacity, having, skip, 0);
    }
  }

  lemma NothingToDrop(peak: nat, capacity: nat, having: nat)
    ensures DropAmount(0, peak, capacity, having) == 0
  {
    assert Mark(0, peak) == 0;
    assert capacity * Mark(0, peak) == 0;
  }

  // ---------------------------------------------------------------------------------------------
  // Exactly what is dropped
  // ---------------------------------------------------------------------------------------------

  /** An even number of samples: the share of the capacity that the peak, or four times two thirds of the
      lowest bucket in use if that is less, is of 120, rounded up. */
  predicate IsAmount(lowest: nat, peak: nat, capacity: nat, amount: nat) {
    var limit := lowest * 2 / 3 * 4;
    var share := capacity * (if peak < limit then peak else limit) / 120;
    amount % 2 == 0 && share <= amount <= share + 1
  }

  lemma SkipIsAmount(lowest: nat, peak: nat, capacity: nat, amount: nat)
    ensures Skip(lowest, peak, capacity) == amount <==> IsAmount(lowest, peak, capacity, amount)
  {
    EvenUp(capacity * Mark(lowest, peak) / 120);
  }

  /** A window and a fill lead to a drop exactly if the lowest bucket in use is at 200 ms or more, the peak
      at 600 ms or more, the amount they call for is positive, and more than three times as much is
      buffered; and then that amount is dropped. */
  lemma DecisionIff(window: seq<Level>, capacity: nat, having: nat, lowest: nat, peak: nat, amount: nat, skip: nat)
    requires Rated(window) && IsLowest(Counts(window), lowest) && IsPeak(Counts(window), peak)
    requires IsAmount(lowest, peak, capacity, amount)
    ensures IsDecision(window, capacity, having, skip)
       <==> skip == if lowest >= 2 && peak >= 6 && amount > 0 && having > 3 * amount then amount else 0
  {
    SkipIsAmount(lowest, peak, capacity, amount);
    if lowest < 2 {
      assert lowest * 2 / 3 == 0;
      assert capacity * 0 == 0;
    }
    var drop := DropAmount(lowest, peak, capacity, having);
    assert IsDecision(window, capacity, having, drop);
    if IsDecision(window, capacity, having, skip) {
      DecisionUnique(window, capacity, having, skip, drop);
    }
  }

  /** A drop does not depend on how much more is buffered. */
  lemma MoreBufferedSameDrop(window: seq<Level>, capacity: nat, having: nat, more: nat, skip: nat)
    requires Rated(window) && IsDecision(window, capacity, having, skip) && skip > 0 && having <= more
    ensures IsDecision(window, capacity, more, skip)
  {
    var lowest: nat, peak: nat :| IsLowest(Counts(window), lowest) && IsPeak(Counts(window), peak)
                                  && skip == DropAmount(lowest, peak, capacity, having);
    assert skip == DropAmount(lowest, peak, capacity, more);
  }

  // ---------------------------------------------------------------------------------------------
  // Drops from a buffer that holds less than 600 ms
  // ---------------------------------------------------------------------------------------------

  function LowestOf(histogram: seq<nat>): (z: nat)
    ensures IsLowest(histogram, z)
  {
    if histogram == [] || histogram[0] > 0 then 0
    else
      var z := LowestOf(histogram[1..]);
      assert forall j | 0 <= j < z + 1 :: histogram[j] == if j == 0 then 0 else histogram[1..][j - 1];
      z + 1
  }

  function PeakOf(histogram: seq<nat>): (m: nat)
    requires histogram != []
    ensures IsPeak(histogram, m)
  {
    var n := |histogram| - 1;
    if n == 0 then 0
    else
      var m := PeakOf(histogram[..n]);
      if histogram[n] > (if m == 0 then 0 else histogram[m]) then n else m
  }

  predicate Below600ms(having: nat, rate: nat) {
    having * 10 < 6 * rate
  }

  /** Water marks that call for a drop of which more than three times as much is still below 600 ms. */
  predicate CallsForLowDrop(lowest: nat, peak: nat, rate: nat) {
    var skip := Skip(lowest, peak, 3 * rate);
    peak >= 6 && skip > 0 && 15 * skip + 5 < 3 * rate
  }

  /** They, and no others, lead to a drop from some buffer with less than 600 ms in it. */
  lemma DropsBelow600msIff(lowest: nat, peak: nat, rate: nat)
    ensures (exists having: nat :: Below600ms(having, rate) && DropAmount(lowest, peak, 3 * rate, having) > 0)
       <==> CallsForLowDrop(lowest, peak, rate)
  {
    var skip := Skip(lowest, peak, 3 * rate);
    if having: nat :| Below600ms(having, rate) && DropAmount(lowest, peak, 3 * rate, having) > 0 {
      assert having >= 3 * skip + 1;
    }
    if peak >= 6 && skip > 0 && 15 * skip + 5 < 3 * rate {
      assert Below600ms(3 * skip + 1, rate) && DropAmount(lowest, peak, 3 * rate, 3 * skip + 1) > 0;
    }
  }

  /** The same, read off the marks: the lowest bucket in use is that of 200 ms, or the peak is below
      800 ms, or rounding lets a mark of exactly 800 ms pass. At a rate that 5 divides it never does. */
  predicate AllowsLowDrop(lowest: nat, peak: nat, rate: nat) {
    && peak >= 6 && lowest >= 2
    && (lowest == 2 || peak < 8 || (Mark(lowest, peak) == 8 && rate % 5 >= 2 && rate / 5 % 2 == 0))
  }

  lemma SkipOf(lowest: nat, peak: nat, rate: nat)
    ensures var x, skip := rate * Mark(lowest, peak) / 40, Skip(lowest, peak, 3 * rate);
            x <= skip <= x + 1 && skip % 2 == 0
  {
    var m := Mark(lowest, peak);
    Reduced(rate, m);
    EvenUp(rate * m / 40);
  }

  lemma EvenUp(x: nat)
    ensures x <= RoundUpEven(x) <= x + 1 && RoundUpEven(x) % 2 == 0
  {
  }

  lemma Reduced(rate: nat, m: nat)
    ensures 3 * rate * m / 120 == rate * m / 40
  {
    var p := rate * m;
    assert 3 * rate * m == 3 * p;
    ThirdOf(p);
  }

  lemma ThirdOf(x: nat)
    ensures 3 * x / 120 == x / 40
  {
  }

  lemma AtMark4(rate: nat, skip: nat)
    requires rate >= 55 && rate * 4 / 40 <= skip <= rate * 4 / 40 + 1
    ensures skip > 0 && 15 * skip + 5 < 3 * rate
  {
  }

  lemma AtMark6or7(m: nat, rate: nat, skip: nat)
    requires 6 <= m <= 7 && rate >= 55 && rate * m / 40 <= skip <= rate * m / 40 + 1
    ensures skip > 0 && 15 * skip + 5 < 3 * rate
  {
    assert m == 6 || m == 7;
  }

  lemma AtMark8(rate: nat, skip: nat)
    requires rate * 8 / 40 <= skip <= rate * 8 / 40 + 1 && skip % 2 == 0
    ensures 15 * skip + 5 < 3 * rate <==> rate % 5 >= 2 && rate / 5 % 2 == 0
  {
    assert rate * 8 / 40 == rate / 5;
  }

  lemma AboveMark8(m: nat, rate: nat, skip: nat)
    requires m >= 9 && rate >= 55 && rate * m / 40 <= skip
    ensures !(15 * skip + 5 < 3 * rate)
  {
    MulMonotone(9, m, rate);
    assert rate * 9 / 40 <= rate * m / 40;
  }

  lemma AllowsLowDropIff(lowest: nat, peak: nat, rate: nat)
    requires rate >= 55
    ensures AllowsLowDrop(lowest, peak, rate) <==> CallsForLowDrop(lowest, peak, rate)
  {
    var m, skip := Mark(lowest, peak), Skip(lowest, peak, 3 * rate);
    SkipOf(lowest, peak, rate);
    if peak >= 6 {
      if lowest < 2 {
        assert m == 0 && rate * m == 0;
      } else if lowest == 2 {
        assert m == 4;
        AtMark4(rate, skip);
      } else if peak < 8 {
        assert m == peak;
        AtMark6or7(m, rate, skip);
      } else if m == 8 {
        AtMark8(rate, skip);
      } else {
        AboveMark8(m, rate, skip);
      }
    }
  }

  /** So a window leads to a drop from some buffer with less than 600 ms in it if and only if its water
      marks call for one; from a rate of 55 samples on, that is read off the marks. */
  lemma WindowDropsBelow600msIff(window: seq<Level>, rate: nat)
    requires Rated(window)
    ensures (exists having: nat, skip: nat ::
               Below600ms(having, rate) && skip > 0 && IsDecision(window, 3 * rate, having, skip))
       <==> CallsForLowDrop(LowestOf(Counts(window)), PeakOf(Counts(window)), rate)
    ensures rate >= 55 ==>
              (CallsForLowDrop(LowestOf(Counts(window)), PeakOf(Counts(window)), rate)
               <==> AllowsLowDrop(LowestOf(Counts(window)), PeakOf(Counts(window)), rate))
  {
    var lowest, peak := LowestOf(Counts(window)), PeakOf(Counts(window));
    if rate >= 55 {
      AllowsLowDropIff(lowest, peak, rate);
    }
    DropsBelow600msIff(lowest, peak, rate);
    forall having: nat ensures IsDecision(window, 3 * rate, having, DropAmount(lowest, peak, 3 * rate, having)) {
    }
    if having: nat, skip: nat :|
         Below600ms(having, rate) && skip > 0 && IsDecision(window, 3 * rate, having, skip) {
      DecisionUnique(window, 3 * rate, having, skip, DropAmount(lowest, peak, 3 * rate, having));
    }
    if having: nat :| Below600ms(having, rate) && DropAmount(lowest, peak, 3 * rate, having) > 0 {
      assert IsDecision(window, 3 * rate, having, DropAmount(lowest, peak, 3 * rate, having));
    }
  }

  function InBucket(level: Level, i: nat): nat
    requires level.rate > 0
  {
    if Bucket(level.having, level.rate) == i then 1 else 0
  }

  lemma TallyMore(window: seq<Level>, level: Level, i: nat)
    requires Rated(window) && level.rate > 0
    ensures Rated(window + [level]) && Tally(window + [level], i) == Tally(window, i) + InBucket(level, i)
  {
    assert (window + [level])[..|window|] == window;
  }

  lemma TallyFour(a: Level, b: Level, c: Level, d: Level, i: nat)
    requires a.rate > 0 && b.rate > 0 && c.rate > 0 && d.rate > 0
    ensures Tally([a, b, c, d], i) == InBucket(a, i) + InBucket(b, i) + InBucket(c, i) + InBucket(d, i)
  {
    assert [a, b, c, d] == [] + [a] + [b] + [c] + [d];
    TallyMore([], a, i);
    TallyMore([] + [a], b, i);
    TallyMore([] + [a] + [b], c, i);
    TallyMore([] + [a] + [b] + [c], d, i);
  }

  lemma BucketOfTenth(r: nat, k: nat)
    requires r > 0 && k < BUCKETS
    ensures Bucket(2 * r * k, 20 * r) == k
  {
    assert 2 * r * k * 10 == k * (20 * r) + 0;
    DivModUnique(2 * r * k * 10, 20 * r, k, 0);
  }

  /** Levels of 200, 600, 600 and 400 ms. */
  function LowWindow(r: nat): seq<Level> {
    [Level(4 * r, 20 * r), Level(12 * r, 20 * r), Level(12 * r, 20 * r), Level(8 * r, 20 * r)]
  }

  lemma LowWindowMarks(r: nat)
    requires r > 0
    ensures Rated(LowWindow(r)) && IsLowest(Counts(LowWindow(r)), 2) && IsPeak(Counts(LowWindow(r)), 6)
  {
    BucketOfTenth(r, 2);
    BucketOfTenth(r, 4);
    BucketOfTenth(r, 6);
    var counts := Counts(LowWindow(r));
    forall i | 0 <= i < BUCKETS ensures counts[i] == if i == 6 then 2 else if i == 2 || i == 4 then 1 else 0 {
      TallyFour(Level(4 * r, 20 * r), Level(12 * r, 20 * r), Level(12 * r, 20 * r), Level(8 * r, 20 * r), i);
    }
  }

  /** A real case: after levels of 200, 600, 600 and 400 ms, with the last still buffered, 100 ms are
      dropped. */
  lemma DropsBelow600ms(r: nat)
    requires r > 0
    ensures Rated(LowWindow(r)) && IsDecision(LowWindow(r), 3 * (20 * r), 8 * r, 2 * r)
    ensures Below600ms(8 * r, 20 * r)
  {
    LowWindowMarks(r);
    assert 3 * (20 * r) * 4 / 120 == 2 * r;
    assert DropAmount(2, 6, 3 * (20 * r), 8 * r) == 2 * r;
  }

  // ---------------------------------------------------------------------------------------------
  // The buffer
  // ---------------------------------------------------------------------------------------------

  /** The newest `n` elements. */
  function Newest(s: seq<real>, n: nat): (r: seq<real>)
    ensures |r| == (if |s| <= n then |s| else n) && r == s[|s| - |r|..]
  {
    if |s| <= n then s else s[|s| - n..]
  }

  function NextGeneration(generation: nat): nat {
    (generation + 1) % GENERATIONS
  }

  /** What a decision on `window`, if one is taken, makes of the samples and of the count of losses: the
      oldest samples are gone, as many as the window calls for, and a loss is counted once. */
  ghost predicate IsShrunk(before: seq<real>, after: seq<real>, losses: nat, newLosses: nat,
                           window: seq<Level>, capacity: nat, decides: bool)
    requires Rated(window)
  {
    exists skip: nat | skip <= |before| ::
      && after == before[skip..]
      && newLosses == (if skip > 0 then NextGeneration(losses) else losses)
      && (if decides then IsDecision(window, capacity, |before|, skip) else skip == 0)
  }

  /** When a decision was last taken, in milliseconds, or 0. All buffers of a program share it. */
  class DecisionClock {
    var last: int

    constructor ()
      ensures last == 0
    {
      last := 0;
    }
  }

  class AudioBuffer {
    var samples: seq<real>
    var capacity: nat
    var rate: nat
    const histogram: array<nat>
    const clock: DecisionClock
    var generation: nat
    /** The levels recorded since the last decision, oldest first. */
    ghost var window: seq<Level>

    /** The ring holds three seconds at the current rate, and the histogram counts the window. */
    ghost predicate Valid()
      reads this, histogram
    {
      && capacity == 3 * rate && |samples| <= capacity
      && histogram.Length == BUCKETS && Rated(window)
      && forall i | 0 <= i < BUCKETS :: histogram[i] == Tally(window, i)
    }

    constructor (clock: DecisionClock)
      ensures Valid() && fresh(histogram) && samples == [] && rate == 96000 && window == []
      ensures this.clock == clock && generation == 0
    {
      samples := [];
      capacity := 48000 * 2 * AUDIO_BUFFER_MS / 1000;
      rate := 48000 * 2;
      histogram := new nat[BUCKETS](_ => 0);
      this.clock := clock;
      generation := 0;
      window := [];
    }

    /** A new rate empties the ring and keeps the window; the rate in force already changes nothing. */
    method Resize(sampleRate: nat, channels: nat)
      requires Valid()
      modifies this
      ensures Valid() && rate == sampleRate * channels
      ensures window == old(window) && generation == old(generation)
      ensures samples == if sampleRate * channels == old(rate) then old(samples) else []
    {
      var newCapacity := sampleRate * channels * AUDIO_BUFFER_MS / 1000;
      if newCapacity != capacity {
        samples := [];
        capacity := newCapacity;
        rate := sampleRate * channels;
      }
    }

    /** Appends and keeps the newest three seconds; what did not fit is signalled as a gap. */
    method AppendPcm2(buffer: seq<real>) returns (having: nat)
      requires Valid()
      modifies this`samples, this`generation
      ensures Valid() && having == |samples|
      ensures samples == Newest(old(samples) + buffer, capacity)
      ensures generation == if |old(samples)| + |buffer| > capacity
                            then NextGeneration(old(generation)) else old(generation)
    {
      var total := |samples| + |buffer|;
      samples := Newest(samples + buffer, capacity);
      if total > capacity {
        generation := NextGeneration(generation);
      }
      having := |samples|;
    }

    /** Closes the window: clears the histogram and settles how many samples to drop. */
    method Decide() returns (skip: nat)
      requires Valid()
      modifies this`window, histogram
      ensures Valid() && window == []
      ensures IsDecision(old(window), capacity, |samples|, skip)
    {
      ghost var counts := histogram[..];
      assert counts == Counts(window);
      var zero, max := FindWaterMarks(histogram);
      histogram[max] := 0;
      window := [];
      skip := SettleDrop(zero, max, capacity, |samples|);
    }

    /** Records a level; a first record, or one within twelve seconds of the last decision, does
        nothing more. Otherwise the window is closed, and the oldest samples are dropped as decided. */
    method TryShrink(having: nat, now: int)
      requires Valid() && rate > 0
      modifies this`samples, this`generation, this`window, histogram, clock
      ensures Valid()
      ensures var decides := old(clock.last) != 0 && old(clock.last) + DECISION_PERIOD_MS <= now;
              var all := old(window) + [Level(having, rate)];
              && clock.last == (if decides || old(clock.last) == 0 then now else old(clock.last))
              && window == (if decides then [] else all)
              && IsShrunk(old(samples), samples, old(generation), generation, all, capacity, decides)
    {
      Record(having);
      assert samples == samples[0..];
      if clock.last == 0 {
        clock.last := now;
        return;
      } else if now < clock.last + DECISION_PERIOD_MS {
        return;
      }
      clock.last := now;
      var skip := Decide();
      DecisionFits(old(window) + [Level(having, rate)], capacity, |samples|, skip);
      if skip > 0 {
        samples := samples[skip..];
        generation := NextGeneration(generation);
      }
    }

    method Record(having: nat)
      requires Valid() && rate > 0
      modifies histogram, this`window
      ensures Valid() && window == old(window) + [Level(having, rate)]
    {
      var i := Bucket(having, rate);
      histogram[i] := histogram[i] + 1;
      window := window + [Level(having, rate)];
      assert window[..|window| - 1] == old(window);
    }

    /** One arrival of decoded samples, as the audio handler reports it. Each loss, of what did not fit
        and of what is dropped, is signalled once. */
    method AppendPcm(buffer: seq<real>, now: int)
      requires Valid() && rate > 0
      modifies this`samples, this`generation, this`window, histogram, clock
      ensures Valid()
      ensures var kept := Newest(old(samples) + buffer, capacity);
              var overflow := |old(samples)| + |buffer| > capacity;
              var signalled := if overflow then NextGeneration(old(generation)) else old(generation);
              var decides := old(clock.last) != 0 && old(clock.last) + DECISION_PERIOD_MS <= now;
              var all := old(window) + [Level(|kept|, rate)];
              && clock.last == (if decides || old(clock.last) == 0 then now else old(clock.last))
              && window == (if decides then [] else all)
              && IsShrunk(kept, samples, signalled, generation, all, capacity, decides)
    {
      var having := AppendPcm2(buffer);
      TryShrink(having, now);
    }
  }
}
