/** The audio jitter buffer: a bounded ring of samples, and a histogram of fill levels from which
    every twelve seconds an amount to drop is chosen. */
module AudioBuffer {
  import opened Text

  const BUCKETS := 30
  const N := 4
  const WINDOW := 12000

  // ---------- What the histogram means ----------

  /** Fill level in tenths of a second, the last bucket being open. */
  function Bucket(having: nat, rate: nat): (i: nat)
    requires rate > 0
    ensures i < BUCKETS
  {
    if having * 10 / rate > 29 then 29 else having * 10 / rate
  }

  /** The number of empty buckets before the first used one. */
  function LeadingZeros(h: seq<nat>): (z: nat)
    ensures z <= |h|
    ensures forall j :: 0 <= j < z ==> h[j] == 0
    ensures z < |h| ==> h[z] != 0
  {
    if h == [] || h[0] != 0 then 0 else 1 + LeadingZeros(h[1..])
  }

  /** The fullest bucket, the first one on a tie. */
  ghost predicate IsFirstArgmax(h: seq<nat>, m: nat)
  {
    && m < |h|
    && (forall j :: 0 <= j < |h| ==> h[j] <= h[m])
    && (forall j :: 0 <= j < m ==> h[j] < h[m])
  }

  function FirstArgmax(h: seq<nat>): (m: nat)
    requires h != []
    ensures IsFirstArgmax(h, m)
  {
    if |h| == 1 then 0
    else
      var last := |h| - 1;
      var g := h[..last];
      var m := FirstArgmax(g);
      assert forall j :: 0 <= j < last ==> g[j] == h[j];
      if h[last] > h[m] then last else m
  }

  /** The amount to drop at a level, whatever is buffered. */
  function Amount(cap: nat, level: nat): nat
  {
    (cap * level / (30 * N) + 1) / 2 * 2
  }

  /** Samples to drop when level `m` is the usual one and the `zero` lowest levels never occurred. */
  function Skip(cap: nat, m: nat, zero: nat, having: nat): nat
  {
    var water := zero * 2 / 3;
    if m < 6 then 0
    else
      var level := if m > water * N then water * N else m;
      var skip := Amount(cap, level);
      if having > skip * 3 && skip > 0 then skip else 0
  }

  /** The decision in plain terms: the usual level and the levels never seen. */
  function Drop(h: seq<nat>, cap: nat, having: nat): nat
    requires h != []
  {
    Skip(cap, FirstArgmax(h), LeadingZeros(h), having)
  }

  // ---------- What the in-place loop computes ----------

  /** The running maximum of the loop over the first `i` buckets: bucket 0 is wiped before it is
      ever compared, so it counts as empty. */
  function Running(h: seq<nat>, i: nat): (m: nat)
    requires i <= |h|
    ensures i == 0 ==> m == 0
    ensures i > 0 ==> m < i
  {
    if i <= 1 then 0
    else
      var m := Running(h, i - 1);
      if h[i - 1] > (if m == 0 then 0 else h[m]) then i - 1 else m
  }

  lemma {:induction false} RunningIsArgmax(h: seq<nat>, i: nat)
    requires 1 <= i <= |h| && h[0] == 0
    ensures IsFirstArgmax(h[..i], Running(h, i))
  {
    if i > 1 {
      RunningIsArgmax(h, i - 1);
      var m := Running(h, i - 1);
      assert forall j :: 0 <= j < i - 1 ==> h[..i - 1][j] == h[j] == h[..i][j];
    }
  }

  lemma ArgmaxUnique(h: seq<nat>, m: nat, m': nat)
    requires IsFirstArgmax(h, m) && IsFirstArgmax(h, m')
    ensures m == m'
  {
    assert h[m] == h[m'];
  }

  /** Forgetting bucket 0 never changes the decision: if it was used, no level is safe to drop. */
  lemma SameDecision(h: seq<nat>, cap: nat, having: nat)
    requires |h| == BUCKETS
    ensures Skip(cap, Running(h, BUCKETS), LeadingZeros(h), having) == Drop(h, cap, having)
  {
    var m := FirstArgmax(h);
    if h[0] == 0 {
      RunningIsArgmax(h, BUCKETS);
      assert h[..BUCKETS] == h;
      ArgmaxUnique(h, m, Running(h, BUCKETS));
    } else {
      assert LeadingZeros(h) == 0;
      NothingSafe(cap, m, having);
      NothingSafe(cap, Running(h, BUCKETS), having);
    }
  }

  lemma NothingSafe(cap: nat, m: nat, having: nat)
    ensures Skip(cap, m, 0, having) == 0
  {
    assert cap * 0 / 120 == 0;
  }

  // ---------- Recorded levels ----------

  datatype Level = Level(having: nat, rate: nat)

  ghost predicate ValidLevels(levels: seq<Level>)
  {
    forall k :: 0 <= k < |levels| ==> levels[k].rate > 0
  }

  ghost function Count(levels: seq<Level>, b: nat): nat
    requires ValidLevels(levels)
  {
    if levels == [] then 0
    else
      var last := levels[|levels| - 1];
      Count(levels[..|levels| - 1], b) + if Bucket(last.having, last.rate) == b then 1 else 0
  }

  lemma {:induction false} RecordedBucketUsed(levels: seq<Level>, k: nat)
    requires ValidLevels(levels) && k < |levels|
    ensures Count(levels, Bucket(levels[k].having, levels[k].rate)) > 0
    decreases |levels|
  {
    if k < |levels| - 1 {
      RecordedBucketUsed(levels[..|levels| - 1], k);
    }
  }

  /** The histogram counts the recorded levels. */
  ghost predicate Counts(h: seq<nat>, levels: seq<Level>)
  {
    |h| == BUCKETS && ValidLevels(levels) && forall b :: 0 <= b < BUCKETS ==> h[b] == Count(levels, b)
  }

  lemma BucketLow(having: nat, rate: nat, z: nat)
    requires rate > 0 && z <= Bucket(having, rate)
    ensures z * rate <= having * 10
  {
    var q := having * 10 / rate;
    assert q * rate <= having * 10;
    MulMonotone(z, q, rate);
  }

  lemma MulMonotone(x: nat, y: nat, k: nat)
    requires x <= y
    ensures x * k <= y * k
  {
  }

  lemma SkipArithmetic(rate: nat, level: nat, water: nat, zero: nat, x: nat)
    requires level <= 4 * water && 3 * water <= 2 * zero && 120 * x <= 3 * rate * level
    ensures 15 * x <= rate * zero
  {
    MulMonotone(3 * level, 8 * zero, rate);
    assert 3 * level * rate == 3 * rate * level;
    assert 8 * zero * rate == 8 * (rate * zero);
  }

  lemma SkipBound(rate: nat, m: nat, zero: nat, having: nat)
    ensures var s := Skip(3 * rate, m, zero, having); s > 0 ==> 15 * (s - 1) <= rate * zero
  {
    var s := Skip(3 * rate, m, zero, having);
    if s > 0 {
      var water := zero * 2 / 3;
      var level := if m > water * N then water * N else m;
      var x := 3 * rate * level / 120;
      SkipArithmetic(rate, level, water, zero, x);
    }
  }

  /** At most two thirds of a recorded level, taken in time, plus one sample. */
  predicate Cautious(dropped: nat, l: Level, rate: nat)
  {
    dropped > 0 ==>
      && 3 * (dropped - 1) * l.rate <= 2 * l.having * rate
      && (l.rate == rate ==> 3 * (dropped - 1) <= 2 * l.having)
  }

  lemma CautionArithmetic(x: nat, z: nat, rate: nat, l: Level)
    requires 15 * x <= rate * z && z * l.rate <= l.having * 10
    ensures 3 * x * l.rate <= 2 * l.having * rate
  {
    MulMonotone(15 * x, rate * z, l.rate);
    MulMonotone(z * l.rate, l.having * 10, rate);
    assert 15 * x * l.rate == 5 * (3 * x * l.rate);
    assert rate * z * l.rate == z * l.rate * rate;
    assert l.having * 10 * rate == 5 * (2 * l.having * rate);
  }

  lemma CautionSameRate(x: nat, z: nat, rate: nat, having: nat)
    requires 15 * x <= rate * z && z * rate <= having * 10
    ensures 3 * x <= 2 * having
  {
    assert rate * z == z * rate;
  }

  /** A drop is even, less than a third of what is buffered, and in time at most two thirds (plus one
      sample) of every level recorded since the histogram was last cleared, at whatever rate. */
  lemma DropIsCautious(h: seq<nat>, levels: seq<Level>, rate: nat, having: nat, k: nat)
    requires rate > 0 && Counts(h, levels) && k < |levels|
    ensures var s := Drop(h, 3 * rate, having);
      s % 2 == 0 && (s > 0 ==> 3 * s < having) && Cautious(s, levels[k], rate)
  {
    var z, l, s := LeadingZeros(h), levels[k], Drop(h, 3 * rate, having);
    RecordedBucketUsed(levels, k);
    assert z <= Bucket(l.having, l.rate);
    BucketLow(l.having, l.rate, z);
    SkipBound(rate, FirstArgmax(h), z, having);
    if s > 0 {
      CautionArithmetic(s - 1, z, rate, l);
      if l.rate == rate {
        CautionSameRate(s - 1, z, rate, l.having);
      }
    }
  }

  /** A level below 600 ms. */
  predicate LowLevel(l: Level)
  {
    l.having * 10 < 6 * l.rate
  }

  lemma LowBucket(l: Level)
    requires l.rate > 0
    ensures LowLevel(l) <==> Bucket(l.having, l.rate) < 6
  {
    var n, d := l.having * 10, l.rate;
    var q := n / d;
    assert n == q * d + n % d;
    if q < 6 {
      MulMonotone(q + 1, 6, d);
    } else {
      MulMonotone(6, q, d);
    }
  }

  lemma {:induction false} NoneRecorded(levels: seq<Level>, b: nat)
    requires ValidLevels(levels) && forall k :: 0 <= k < |levels| ==> Bucket(levels[k].having, levels[k].rate) != b
    ensures Count(levels, b) == 0
  {
    if levels != [] {
      NoneRecorded(levels[..|levels| - 1], b);
    }
  }

  /** Nothing is dropped when all levels recorded were below 600 ms. */
  lemma LowLevelsKept(h: seq<nat>, levels: seq<Level>, cap: nat, having: nat)
    requires Counts(h, levels) && forall k :: 0 <= k < |levels| ==> LowLevel(levels[k])
    ensures Drop(h, cap, having) == 0
  {
    forall b | 6 <= b < BUCKETS
      ensures h[b] == 0
    {
      forall k | 0 <= k < |levels|
        ensures Bucket(levels[k].having, levels[k].rate) != b
      {
        LowBucket(levels[k]);
      }
      NoneRecorded(levels, b);
    }
    var m := FirstArgmax(h);
    var top := h[m];
    assert m < 6 || top == 0;
  }

  lemma DropFacts(h: seq<nat>, levels: seq<Level>, rate: nat, having: nat)
    requires rate > 0 && Counts(h, levels)
    ensures var s := Drop(h, 3 * rate, having);
      && (forall k :: 0 <= k < |levels| ==> Cautious(s, levels[k], rate))
      && ((forall k :: 0 <= k < |levels| ==> LowLevel(levels[k])) ==> s == 0)
  {
    forall k | 0 <= k < |levels|
      ensures Cautious(Drop(h, 3 * rate, having), levels[k], rate)
    {
      DropIsCautious(h, levels, rate, having, k);
    }
    if forall k :: 0 <= k < |levels| ==> LowLevel(levels[k]) {
      LowLevelsKept(h, levels, 3 * rate, having);
    }
  }

  /** The lowest level recorded, and the one recorded most often, the lower one on a tie. */
  ghost predicate Lowest(levels: seq<Level>, z: nat)
    requires ValidLevels(levels)
  {
    && (exists k :: 0 <= k < |levels| && Bucket(levels[k].having, levels[k].rate) == z)
    && (forall k :: 0 <= k < |levels| ==> Bucket(levels[k].having, levels[k].rate) >= z)
  }

  ghost predicate Usual(levels: seq<Level>, m: nat)
    requires ValidLevels(levels)
  {
    && m < BUCKETS
    && (forall b :: 0 <= b < BUCKETS ==> Count(levels, b) <= Count(levels, m))
    && (forall b :: 0 <= b < m ==> Count(levels, b) < Count(levels, m))
  }

  lemma LowestIsLeading(h: seq<nat>, levels: seq<Level>, z: nat)
    requires Counts(h, levels) && Lowest(levels, z)
    ensures LeadingZeros(h) == z
  {
    var k :| 0 <= k < |levels| && Bucket(levels[k].having, levels[k].rate) == z;
    RecordedBucketUsed(levels, k);
    forall b | 0 <= b < z
      ensures h[b] == 0
    {
      NoneRecorded(levels, b);
    }
    LeadingZerosUnique(h, z);
  }

  lemma UsualIsArgmax(h: seq<nat>, levels: seq<Level>, m: nat)
    requires Counts(h, levels) && Usual(levels, m)
    ensures FirstArgmax(h) == m
  {
    assert IsFirstArgmax(h, m);
    ArgmaxUnique(h, FirstArgmax(h), m);
  }

  /** A fortieth of the rate times the level, to the nearest even number. */
  function EvenPart(rate: nat, level: nat): nat
  {
    (rate * level + 40) / 80 * 2
  }

  /** The decision in terms of the levels recorded: nothing if the usual one is below 600 ms;
      otherwise a quarter of the usual one or of four times two thirds of the lowest one, whichever
      is less, if three times as much is buffered. */
  lemma DropMeans(h: seq<nat>, levels: seq<Level>, rate: nat, having: nat, z: nat, m: nat)
    requires Counts(h, levels) && Lowest(levels, z) && Usual(levels, m)
    ensures var level := if m <= 4 * (2 * z / 3) then m else 4 * (2 * z / 3);
      var s := EvenPart(rate, level);
      Drop(h, 3 * rate, having) == if m >= 6 && s > 0 && having > 3 * s then s else 0
  {
    LowestIsLeading(h, levels, z);
    UsualIsArgmax(h, levels, m);
    SkipMeans(rate, m, z, having);
  }

  lemma SkipMeans(rate: nat, m: nat, z: nat, having: nat)
    ensures var level := if m <= 4 * (2 * z / 3) then m else 4 * (2 * z / 3);
      var s := EvenPart(rate, level);
      Skip(3 * rate, m, z, having) == if m >= 6 && s > 0 && having > 3 * s then s else 0
  {
    var level := if m <= 4 * (2 * z / 3) then m else 4 * (2 * z / 3);
    AmountIs(rate, level, rate * level);
  }

  /** The histogram with one more level in it. */
  function Recorded(h: seq<nat>, having: nat, rate: nat): (h': seq<nat>)
    requires |h| == BUCKETS && rate > 0
    ensures |h'| == BUCKETS
  {
    var b := Bucket(having, rate);
    h[b := h[b] + 1]
  }

  lemma CountsNext(h: seq<nat>, levels: seq<Level>, l: Level)
    requires Counts(h, levels) && l.rate > 0
    ensures Counts(Recorded(h, l.having, l.rate), levels + [l])
  {
    assert (levels + [l])[..|levels|] == levels;
  }

  lemma DropShape(h: seq<nat>, cap: nat, having: nat)
    requires h != []
    ensures Drop(h, cap, having) % 2 == 0 && 3 * Drop(h, cap, having) <= having
  {
  }

  // ---------- The ring ----------

  /** The ring, how many samples of the stream have left it at the front, the histogram and the
      start of the window. */
  datatype State = State(samples: seq<real>, gone: nat, h: seq<nat>, start: int)

  /** What is done to the buffer: samples come in, a level is recorded and perhaps acted upon, and
      samples are played.  Playback may come between the two halves of an append, so the recorded
      level need not be the present one. */
  datatype Op = Append(samples: seq<real>) | Observe(having: nat, now: int) | Pop(wanted: nat)

  predicate ValidState(s: State, rate: nat)
  {
    |s.h| == BUCKETS && rate > 0 && |s.samples| <= 3 * rate
  }

  function Cleared(): (h: seq<nat>)
    ensures |h| == BUCKETS
  {
    seq(BUCKETS, i => 0)
  }

  /** For twelve seconds after a decision, or after the first level, nothing is decided. */
  lemma QuietWindow(s: State, rate: nat, having: nat, now: int)
    requires ValidState(s, rate)
    ensures s.start == 0 || now < s.start + 12000 ==>
      var s' := Apply(s, rate, Observe(having, now));
      && s'.samples == s.samples && s'.gone == s.gone && s'.h == Recorded(s.h, having, rate)
      && s'.start == if s.start == 0 then now else s.start
    ensures s.start != 0 && now >= s.start + 12000 ==>
      var s' := Apply(s, rate, Observe(having, now));
      s'.start == now && forall b :: 0 <= b < BUCKETS ==> s'.h[b] == 0
  {
    assert s.samples[0..] == s.samples;
  }

  /** A window has passed, so that it is time for a decision. */
  predicate Due(s: State, now: int)
  {
    s.start != 0 && now >= s.start + WINDOW
  }

  function Incoming(op: Op): seq<real>
  {
    if op.Append? then op.samples else []
  }

  /** The samples once the incoming ones are there. */
  function With(samples: seq<real>, op: Op): seq<real>
  {
    if op.Append? then samples + op.samples else samples
  }

  /** How many samples an operation takes off the front, once the incoming ones are there. */
  function Removed(s: State, rate: nat, op: Op): (n: nat)
    requires ValidState(s, rate)
    ensures n <= |With(s.samples, op)|
  {
    match op
    case Append(buffer) =>
      var have := |s.samples| + |buffer|;
      if have > 3 * rate then have - 3 * rate else 0
    case Observe(having, now) =>
      if Due(s, now) then Drop(Recorded(s.h, having, rate), 3 * rate, |s.samples|) else 0
    case Pop(wanted) => if wanted <= |s.samples| then wanted else |s.samples|
  }

  function Apply(s: State, rate: nat, op: Op): (s': State)
    requires ValidState(s, rate)
    ensures ValidState(s', rate)
  {
    var n := Removed(s, rate, op);
    var samples := With(s.samples, op)[n..];
    match op
    case Observe(having, now) =>
      if Due(s, now) then State(samples, s.gone + n, Cleared(), now)
      else State(samples, s.gone + n, Recorded(s.h, having, rate), if s.start == 0 then now else s.start)
    case _ => State(samples, s.gone + n, s.h, s.start)
  }

  lemma ObserveDrops(s: State, rate: nat, having: nat, now: int)
    requires ValidState(s, rate)
    ensures var n := Removed(s, rate, Observe(having, now));
      && n % 2 == 0 && 3 * n <= |s.samples|
      && Apply(s, rate, Observe(having, now)).samples == s.samples[n..]
  {
    DropShape(Recorded(s.h, having, rate), 3 * rate, |s.samples|);
  }

  /** The newest samples that fit. */
  function Newest(ring: seq<real>, buffer: seq<real>, cap: nat): seq<real>
  {
    var full := ring + buffer;
    full[if |full| > cap then |full| - cap else 0..]
  }

  lemma NewestKeepsSuffix(ring: seq<real>, stream: seq<real>, buffer: seq<real>, cap: nat)
    requires IsSuffix(ring, stream)
    ensures IsSuffix(Newest(ring, buffer, cap), stream + buffer)
  {
    var s, full := stream + buffer, ring + buffer;
    assert full == s[|s| - |full|..];
  }

  lemma NewestOfLong(ring: seq<real>, buffer: seq<real>, cap: nat)
    requires |buffer| > cap
    ensures Newest(ring, buffer, cap) == buffer[|buffer| - cap..]
  {
  }

  lemma NewestOfShort(ring: seq<real>, buffer: seq<real>, cap: nat)
    requires |buffer| <= cap
    ensures var total := |ring| + |buffer|;
      Newest(ring, buffer, cap) == (if total > cap then ring[total - cap..] else ring) + buffer
  {
  }

  lemma AppendIsNewest(s: State, rate: nat, buffer: seq<real>)
    requires ValidState(s, rate)
    ensures var n := Newest(s.samples, buffer, 3 * rate);
      Apply(s, rate, Append(buffer)) == State(n, s.gone + |s.samples| + |buffer| - |n|, s.h, s.start)
  {
  }

  class Buffer {
    var ring: seq<real>
    var capacity: nat
    var rate: nat
    const histogram: array<nat>
    var windowStart: int
    ghost var stream: seq<real>   // everything ever appended
    ghost var levels: seq<Level>  // levels recorded since the histogram was cleared

    ghost predicate Valid()
      reads this, histogram
    {
      && histogram.Length == BUCKETS
      && rate > 0 && capacity == 3 * rate
      && |ring| <= capacity
      && IsSuffix(ring, stream)
      && Counts(histogram[..], levels)
    }

    ghost function Abs(): (s: State)
      requires Valid()
      reads this, histogram
      ensures ValidState(s, rate)
    {
      State(ring, |stream| - |ring|, histogram[..], windowStart)
    }

    constructor ()
      ensures Valid() && fresh(histogram)
      ensures Abs() == State([], 0, Cleared(), 0) && rate == 96000 && levels == [] && stream == []
    {
      ring, capacity, rate, windowStart := [], 48000 * 2 * 3000 / 1000, 48000 * 2, 0;
      histogram := new nat[30](i => 0);
      stream, levels := [], [];
    }

    /** A different capacity empties the ring; the histogram is kept. */
    method Resize(sampleRate: nat, channels: nat)
      requires Valid() && sampleRate > 0 && channels > 0
      modifies this`ring, this`capacity, this`rate
      ensures Valid()
      ensures rate == sampleRate * channels
      ensures ring == if sampleRate * channels == old(rate) then old(ring) else []
    {
      assert sampleRate * channels > 0;
      var cap := sampleRate * channels * 3000 / 1000;
      assert cap == 3 * (sampleRate * channels);
      if cap != capacity {
        ring, capacity := [], cap;
        rate := sampleRate * channels;
      }
    }

    /** Keeps the newest samples that fit. */
    method AppendPcm2(buffer: seq<real>) returns (having: nat)
      requires Valid()
      modifies this`ring, this`stream
      ensures Valid() && rate == old(rate)
      ensures stream == old(stream) + buffer
      ensures ring == Newest(old(ring), buffer, capacity) && having == |ring|
    {
      NewestKeepsSuffix(ring, stream, buffer, capacity);
      stream := stream + buffer;
      if |buffer| > capacity {
        NewestOfLong(ring, buffer, capacity);
        ring := buffer[|buffer| - capacity..];
        return capacity;
      }
      NewestOfShort(ring, buffer, capacity);
      var total := |ring| + |buffer|;
      if total > capacity {
        ring := ring[total - capacity..];
      }
      ring := ring + buffer;
      return |ring|;
    }

    /** Playback takes samples from the front. */
    method PopSlice(wanted: nat) returns (out: seq<real>)
      requires Valid()
      modifies this`ring
      ensures Valid() && Abs() == Apply(old(Abs()), rate, Pop(wanted))
      ensures out + ring == old(ring) && |out| == if wanted < |old(ring)| then wanted else |old(ring)|
    {
      var n := wanted;
      if |ring| < n {
        n := |ring|;
      }
      out := ring[..n];
      ring := ring[n..];
    }

    /** Counts one fill level. */
    method Record(having: nat)
      requires Valid()
      modifies this`levels, histogram
      ensures Valid()
      ensures histogram[..] == Recorded(old(histogram[..]), having, rate)
      ensures levels == old(levels) + [Level(having, rate)]
    {
      var i := (having * 10) / rate;
      if i > 29 {
        i := 29;
      }
      CountsNext(histogram[..], levels, Level(having, rate));
      levels := levels + [Level(having, rate)];
      histogram[i] := histogram[i] + 1;
      assert histogram[..] == Recorded(old(histogram[..]), having, rate);
    }

    /** Chooses an amount from the histogram, drops it, and starts a new histogram. */
    method Shrink() returns (dropped: nat)
      requires Valid()
      modifies this`ring, this`levels, histogram
      ensures Valid() && levels == []
      ensures forall i :: 0 <= i < BUCKETS ==> histogram[i] == 0
      ensures dropped == Drop(old(histogram[..]), capacity, |old(ring)|)
      ensures dropped <= |old(ring)| && ring == old(ring)[dropped..]
      ensures forall k :: 0 <= k < |old(levels)| ==> Cautious(dropped, old(levels)[k], rate)
      ensures (forall k :: 0 <= k < |old(levels)| ==> LowLevel(old(levels)[k])) ==> dropped == 0
    {
      ghost var h := histogram[..];
      SameDecision(h, capacity, |ring|);
      DropFacts(h, levels, rate, |ring|);
      var zero, max := Scan();
      levels := [];
      zero := zero * 2 / 3;
      dropped := 0;
      if max < 6 {
        return;
      } else if max > zero * N {
        max := zero * N;
      }
      var skip := (capacity * max / (30 * N) + 1) / 2 * 2;
      if |ring| > skip * 3 && skip > 0 {
        dropped := skip;
        ring := ring[skip..];
      }
    }

    method TryShrink(having: nat, now: int) returns (dropped: nat)
      requires Valid()
      modifies this`ring, this`windowStart, this`levels, histogram
      ensures Valid() && Abs() == Apply(old(Abs()), rate, Observe(having, now))
      ensures dropped == |old(ring)| - |ring|
      ensures levels == if Due(old(Abs()), now) then [] else old(levels) + [Level(having, rate)]
    {
      assert ring[0..] == ring;
      Record(having);
      if windowStart == 0 {
        windowStart := now;
        return 0;
      } else if now < windowStart + WINDOW {
        return 0;
      }
      windowStart := now;
      dropped := Shrink();
      assert histogram[..] == Cleared();
    }

    /** The in-place pass over the histogram, which it leaves cleared. */
    method Scan() returns (zero: nat, max: nat)
      requires histogram.Length == BUCKETS
      modifies histogram
      ensures forall i :: 0 <= i < BUCKETS ==> histogram[i] == 0
      ensures zero == LeadingZeros(old(histogram[..]))
      ensures max == Running(old(histogram[..]), BUCKETS)
    {
      ghost var h := histogram[..];
      zero, max := 0, 0;
      for i := 0 to BUCKETS
        invariant max == Running(h, i)
        invariant zero <= i && (forall j :: 0 <= j < zero ==> h[j] == 0) && (zero < i ==> h[zero] != 0)
        invariant forall j :: i <= j < BUCKETS ==> histogram[j] == h[j]
        invariant forall j :: 0 <= j < i ==> histogram[j] == if j == max && j != 0 then h[j] else 0
      {
        if histogram[i] == 0 && zero == i {
          zero := zero + 1;
        }
        if histogram[i] > histogram[max] {
          histogram[max] := 0;
          max := i;
        } else {
          histogram[i] := 0;
        }
      }
      histogram[max] := 0;
      LeadingZerosUnique(h, zero);
    }

    /** The newest samples that fit, minus an even number, at most a third, from the front. */
    method AppendPcm(buffer: seq<real>, now: int) returns (dropped: nat)
      requires Valid()
      modifies this`ring, this`stream, this`windowStart, this`levels, histogram
      ensures Valid() && stream == old(stream) + buffer
      ensures var s := Apply(old(Abs()), rate, Append(buffer));
        && Abs() == Apply(s, rate, Observe(|s.samples|, now))
        && dropped % 2 == 0 && 3 * dropped <= |s.samples| && ring == s.samples[dropped..]
    {
      AppendIsNewest(Abs(), rate, buffer);
      var having := AppendPcm2(buffer);
      ObserveDrops(Abs(), rate, having, now);
      dropped := TryShrink(having, now);
    }
  }

  lemma LeadingZerosUnique(h: seq<nat>, z: nat)
    requires z <= |h| && (forall j :: 0 <= j < z ==> h[j] == 0) && (z < |h| ==> h[z] != 0)
    ensures z == LeadingZeros(h)
  {
  }

  // ---------- Frames over whole runs ----------

  function Run(s: State, rate: nat, ops: seq<Op>): (s': State)
    requires ValidState(s, rate)
    ensures ValidState(s', rate)
  {
    if ops == [] then s else Apply(Run(s, rate, ops[..|ops| - 1]), rate, ops[|ops| - 1])
  }

  function Start(): State
  {
    State([], 0, Cleared(), 0)
  }

  function Stream(ops: seq<Op>): seq<real>
  {
    if ops == [] then []
    else Stream(ops[..|ops| - 1]) + Incoming(ops[|ops| - 1])
  }

  lemma StepIsSuffix(s: State, stream: seq<real>, rate: nat, op: Op)
    requires ValidState(s, rate) && s.gone <= |stream| && s.samples == stream[s.gone..]
    ensures var s', stream' := Apply(s, rate, op), stream + Incoming(op);
      s'.gone <= |stream'| && s'.samples == stream'[s'.gone..]
  {
    assert With(s.samples, op) == (stream + Incoming(op))[s.gone..];
  }

  /** After any run the ring is the stream from `gone` on. */
  lemma {:induction false} RunIsStreamEnd(rate: nat, ops: seq<Op>)
    requires rate > 0
    ensures var s := Run(Start(), rate, ops);
      s.gone <= |Stream(ops)| && s.samples == Stream(ops)[s.gone..] && |s.samples| <= 3 * rate
  {
    if ops != [] {
      var last := |ops| - 1;
      RunIsStreamEnd(rate, ops[..last]);
      StepIsSuffix(Run(Start(), rate, ops[..last]), Stream(ops[..last]), rate, ops[last]);
    }
  }

  /** Whole frames come in and whole frames are played. */
  predicate WholeFrames(op: Op, channels: nat)
    requires channels > 0
  {
    match op
    case Append(samples) => |samples| % channels == 0
    case Observe(_, _) => true
    case Pop(wanted) => wanted % channels == 0
  }

  ghost predicate AllWhole(ops: seq<Op>, channels: nat)
    requires channels > 0
  {
    forall i :: 0 <= i < |ops| ==> WholeFrames(ops[i], channels)
  }

  /** Both ends of the ring are on frame boundaries. */
  predicate OnFrames(s: State, channels: nat)
    requires channels > 0
  {
    s.gone % channels == 0 && |s.samples| % channels == 0
  }

  // ---------- Arithmetic of frames ----------

  lemma Multiple(n: int, q: int, c: nat)
    requires c > 0 && n == q * c
    ensures n % c == 0
  {
    var d := q - n / c;
    assert d * c == n % c;
    assert d >= 1 ==> d * c >= c;
    assert d <= -1 ==> d * c + c <= 0;
  }

  lemma SumFrames(a: int, b: int, c: nat)
    requires c > 0 && a % c == 0 && b % c == 0
    ensures (a + b) % c == 0 && (a - b) % c == 0
  {
    Multiple(a + b, a / c + b / c, c);
    Multiple(a - b, a / c - b / c, c);
  }

  lemma AmountIs(rate: nat, level: nat, k: nat)
    requires k == rate * level
    ensures Amount(3 * rate, level) == (k + 40) / 80 * 2
  {
    assert 3 * rate * level == 3 * k;
    Halved(k);
  }

  lemma Halved(k: nat)
    ensures (3 * k / 120 + 1) / 2 == (k + 40) / 80
  {
    assert 3 * k / 120 == k / 40;
  }

  /** The rate times the level lies within 40 divided by the number of channels of a multiple of 80,
      or, with an even number of channels, of a multiple of 40. */
  predicate WholeLevel(sampleRate: nat, channels: nat, level: nat)
  {
    var r := sampleRate * level % 80;
    || r * channels < 40
    || (80 - r) * channels <= 40
    || (channels % 2 == 0 && -40 <= (r - 40) * channels < 40)
  }

  lemma SmallMultiple(e: nat, c: nat)
    requires c > 0 && e <= 2 * c
    ensures e % c == 0 <==> e == 0 || e == c || e == 2 * c
  {
    if e == 0 || e == c || e == 2 * c {
      Multiple(e, if e == 0 then 0 else if e == c then 1 else 2, c);
    } else if e < c {
      assert e % c == e;
    } else {
      assert (e - c) % c == e - c;
      Multiple(c, 1, c);
      if e % c == 0 {
        SumFrames(e, c, c);
      }
    }
  }

  lemma RestIff(r: nat, c: nat, b: nat)
    requires c > 0 && r < 80 && b == r * c
    ensures ((b + 40) / 80 * 2) % c == 0 <==>
      b < 40 || 80 * c - b <= 40 || (c % 2 == 0 && -40 <= b - 40 * c < 40)
  {
    var e := (b + 40) / 80 * 2;
    assert b <= 79 * c;
    SmallMultiple(e, c);
  }

  lemma SplitAmount(k: nat, a: nat, b: nat)
    requires k == 80 * a + b
    ensures (k + 40) / 80 * 2 == 2 * a + (b + 40) / 80 * 2
  {
  }

  lemma SumFramesIff(a: nat, e: nat, c: nat)
    requires c > 0 && a % c == 0
    ensures (a + e) % c == 0 <==> e % c == 0
  {
    if e % c == 0 {
      SumFrames(a, e, c);
    }
    if (a + e) % c == 0 {
      SumFrames(a + e, a, c);
    }
  }

  lemma Products(sampleRate: nat, c: nat, level: nat, q: nat, r: nat)
    requires sampleRate * level == 80 * q + r
    ensures sampleRate * c * level == 80 * (q * c) + r * c
  {
    assert sampleRate * c * level == sampleRate * level * c;
    assert (80 * q + r) * c == 80 * (q * c) + r * c;
  }

  /** The exact condition: at this level the amount is a whole number of frames. */
  lemma WholeAmountIff(sampleRate: nat, channels: nat, level: nat)
    requires channels > 0
    ensures Amount(3 * (sampleRate * channels), level) % channels == 0
      <==> WholeLevel(sampleRate, channels, level)
  {
    var c := channels;
    var q, r := sampleRate * level / 80, sampleRate * level % 80;
    var k, b, a := sampleRate * c * level, r * c, q * c;
    AmountIs(sampleRate * c, level, k);
    Products(sampleRate, c, level, q, r);
    SplitAmount(k, a, b);
    Multiple(2 * a, 2 * q, c);
    SumFramesIff(2 * a, (b + 40) / 80 * 2, c);
    RestIff(r, c, b);
    assert (80 - r) * c == 80 * c - b && (r - 40) * c == b - 40 * c;
  }

  /** Sample rates and channel counts at which no drop ever splits a frame. */
  predicate Aligned(sampleRate: nat, channels: nat)
  {
    channels <= 2 || sampleRate % 80 == 0 || (channels % 2 == 0 && sampleRate % 40 == 0)
  }

  lemma OnMultiples(sampleRate: nat, channels: nat, level: nat, s: nat)
    requires s == sampleRate % 80 && (s == 0 || (channels % 2 == 0 && s == 40))
    ensures WholeLevel(sampleRate, channels, level)
  {
    RateTimes(sampleRate, level, 80);
    HalfMultiple(level);
    assert s == 0 ==> s * level == 0;
  }

  lemma HalfMultiple(t: nat)
    ensures 40 * t % 80 == 0 || 40 * t % 80 == 40
  {
  }

  lemma AlignedIsWhole(sampleRate: nat, channels: nat, level: nat)
    requires Aligned(sampleRate, channels) && channels > 0
    ensures WholeLevel(sampleRate, channels, level)
  {
    if channels > 2 {
      OnMultiples(sampleRate, channels, level, sampleRate % 80);
    }
  }

  /** Whatever the histogram, a drop is nothing or the amount of some level. */
  lemma DropIsAmount(h: seq<nat>, cap: nat, having: nat) returns (level: nat)
    requires h != []
    ensures Drop(h, cap, having) == 0 || Drop(h, cap, having) == Amount(cap, level)
  {
    var m, water := FirstArgmax(h), LeadingZeros(h) * 2 / 3;
    level := if m > water * N then water * N else m;
  }

  lemma RemovedFrames(s: State, sampleRate: nat, channels: nat, op: Op)
    requires channels > 0 && ValidState(s, sampleRate * channels) && Aligned(sampleRate, channels)
    requires WholeFrames(op, channels) && |s.samples| % channels == 0
    ensures Removed(s, sampleRate * channels, op) % channels == 0
  {
    var rate := sampleRate * channels;
    match op
    case Append(buffer) =>
      SumFrames(|s.samples|, |buffer|, channels);
      Multiple(3 * rate, 3 * sampleRate, channels);
      SumFrames(|s.samples| + |buffer|, 3 * rate, channels);
      Multiple(0, 0, channels);
    case Observe(having, now) =>
      var level := DropIsAmount(Recorded(s.h, having, rate), 3 * rate, |s.samples|);
      AlignedIsWhole(sampleRate, channels, level);
      WholeAmountIff(sampleRate, channels, level);
      Multiple(0, 0, channels);
    case Pop(_) =>
  }

  lemma StepKeepsFrames(s: State, sampleRate: nat, channels: nat, op: Op)
    requires channels > 0 && ValidState(s, sampleRate * channels) && Aligned(sampleRate, channels)
    requires WholeFrames(op, channels) && OnFrames(s, channels)
    ensures OnFrames(Apply(s, sampleRate * channels, op), channels)
  {
    var n, have := Removed(s, sampleRate * channels, op), |s.samples| + |Incoming(op)|;
    RemovedFrames(s, sampleRate, channels, op);
    Multiple(0, 0, channels);
    SumFrames(|s.samples|, |Incoming(op)|, channels);
    SumFrames(have, n, channels);
    SumFrames(s.gone, n, channels);
  }

  /** Any number of channels at a fitting rate: both ends of the ring stay on frame boundaries over
      every run, whatever was recorded and dropped.  The run may start from any state on frame
      boundaries, such as a ring just emptied by a resize, with the histogram it keeps. */
  lemma {:induction false} RunsKeepFrames(s: State, sampleRate: nat, channels: nat, ops: seq<Op>)
    requires channels > 0 && ValidState(s, sampleRate * channels) && OnFrames(s, channels)
    requires Aligned(sampleRate, channels) && AllWhole(ops, channels)
    ensures OnFrames(Run(s, sampleRate * channels, ops), channels)
  {
    if ops != [] {
      var last := |ops| - 1;
      RunsKeepFrames(s, sampleRate, channels, ops[..last]);
      assert WholeFrames(ops[last], channels);
      StepKeepsFrames(Run(s, sampleRate * channels, ops[..last]), sampleRate, channels, ops[last]);
    }
  }

  // ---------- Runs that split frames ----------

  function Silence(n: nat): (x: seq<real>)
    ensures |x| == n
  {
    seq(n, i => 0.0)
  }

  /** Frames that fill a level exactly. */
  function FramesFor(sampleRate: nat, level: nat): nat
  {
    (sampleRate * level + 9) / 10
  }

  /** Two appends a window apart: enough for a level, then one more frame. */
  function TwoAppends(sampleRate: nat, channels: nat, level: nat): seq<Op>
  {
    var n := FramesFor(sampleRate, level) * channels;
    [Append(Silence(n)), Observe(n, 1), Append(Silence(channels)), Observe(n + channels, 1 + WINDOW)]
  }

  lemma Quotient(n: nat, d: nat, q: nat)
    requires d > 0 && q * d <= n < q * d + d
    ensures n / d == q
  {
    var e := n / d - q;
    assert (n / d) * d == q * d + e * d;
    assert e >= 1 ==> e * d >= d;
    assert e <= -1 ==> e * d + d <= 0;
  }

  lemma BucketOfFrames(sampleRate: nat, channels: nat, level: nat, frames: nat)
    requires sampleRate * channels > 0 && channels > 0 && level < BUCKETS
    requires sampleRate * level <= 10 * frames < sampleRate * level + sampleRate
    ensures Bucket(frames * channels, sampleRate * channels) == level
  {
    var n := frames * channels * 10;
    assert n == 10 * frames * channels;
    MulMonotone(sampleRate * level, 10 * frames, channels);
    MulMonotone(10 * frames + 1, sampleRate * level + sampleRate, channels);
    assert (sampleRate * level) * channels == level * (sampleRate * channels);
    assert (sampleRate * level + sampleRate) * channels == level * (sampleRate * channels) + sampleRate * channels;
    assert (10 * frames + 1) * channels == n + channels;
    Quotient(n, sampleRate * channels, level);
  }

  lemma OnePeak(h: seq<nat>, level: nat, count: nat)
    requires level < BUCKETS && count > 0 && h == Cleared()[level := count]
    ensures FirstArgmax(h) == level && LeadingZeros(h) == level
  {
    assert forall j :: 0 <= j < BUCKETS && j != level ==> h[j] == 0;
    ArgmaxUnique(h, FirstArgmax(h), level);
    LeadingZerosUnique(h, level);
  }

  lemma PeakDrops(rate: nat, level: nat, having: nat, h: seq<nat>, k: nat)
    requires 6 <= level < BUCKETS && h == Cleared()[level := 2]
    requires k == rate * level && 120 <= k && k < 10 * having
    ensures Drop(h, 3 * rate, having) == Amount(3 * rate, level)
  {
    OnePeak(h, level, 2);
    AmountIs(rate, level, k);
  }

  lemma RunTwo(s: State, rate: nat, ops: seq<Op>, a: Op, b: Op)
    requires ValidState(s, rate)
    ensures Run(s, rate, ops + [a, b]) == Apply(Apply(Run(s, rate, ops), rate, a), rate, b)
  {
    assert (ops + [a, b])[..|ops| + 1] == ops + [a];
    assert (ops + [a])[..|ops|] == ops;
  }

  lemma AppendFits(s: State, rate: nat, n: nat)
    requires ValidState(s, rate) && |s.samples| + n <= 3 * rate
    ensures var s' := Apply(s, rate, Append(Silence(n)));
      |s'.samples| == |s.samples| + n && s'.gone == s.gone && s'.h == s.h && s'.start == s.start
  {
  }

  lemma FirstAppend(rate: nat, level: nat, n: nat)
    requires rate > 0 && n <= 3 * rate && Bucket(n, rate) == level
    ensures var s := Apply(Apply(Start(), rate, Append(Silence(n))), rate, Observe(n, 1));
      |s.samples| == n && s.gone == 0 && s.h == Cleared()[level := 1] && s.start == 1
  {
    AppendFits(Start(), rate, n);
  }

  lemma SecondAppend(s: State, rate: nat, c: nat, level: nat, n: nat)
    requires ValidState(s, rate) && n + c <= 3 * rate && Bucket(n + c, rate) == level
    requires |s.samples| == n && s.gone == 0 && s.h == Cleared()[level := 1] && s.start == 1
    ensures Apply(Apply(s, rate, Append(Silence(c))), rate, Observe(n + c, 1 + WINDOW)).gone
      == Drop(Cleared()[level := 2], 3 * rate, n + c)
  {
    AppendFits(s, rate, c);
    assert Recorded(s.h, n + c, rate) == Cleared()[level := 2];
  }

  /** The same two appends on lengths alone. */
  lemma TwoAppendsGone(rate: nat, c: nat, level: nat, n: nat, ops: seq<Op>)
    requires rate > 0 && level < BUCKETS && n + c <= 3 * rate
    requires Bucket(n, rate) == level && Bucket(n + c, rate) == level
    requires ops == [Append(Silence(n)), Observe(n, 1), Append(Silence(c)), Observe(n + c, 1 + WINDOW)]
    ensures Run(Start(), rate, ops).gone == Drop(Cleared()[level := 2], 3 * rate, n + c)
  {
    var none: seq<Op> := [];
    var first := none + [ops[0], ops[1]];
    assert ops == first + [ops[2], ops[3]];
    var s2 := Run(Start(), rate, first);
    RunTwo(Start(), rate, none, ops[0], ops[1]);
    RunTwo(Start(), rate, first, ops[2], ops[3]);
    FirstAppend(rate, level, n);
    SecondAppend(s2, rate, c, level, n);
  }

  /** The lengths involved: within the capacity, and enough for the drop to be allowed. */
  lemma TwoAppendsFit(sampleRate: nat, c: nat, level: nat, f: nat)
    requires sampleRate >= 20 && c > 0 && 6 <= level < BUCKETS && f == FramesFor(sampleRate, level)
    ensures f * c + c <= 3 * (sampleRate * c)
    ensures 120 <= sampleRate * c * level < 10 * (f * c + c)
  {
    FramesFit(sampleRate, level);
    var x := sampleRate * level;
    MulMonotone(f + 1, 3 * sampleRate, c);
    MulMonotone(x, 10 * f, c);
    AtLeast(x, 120, c, 1);
    assert sampleRate * c * level == x * c;
    assert 10 * f * c == 10 * (f * c);
  }

  lemma TwoAppendsLevels(sampleRate: nat, c: nat, level: nat, f: nat)
    requires sampleRate >= 20 && c > 0 && 6 <= level < BUCKETS && f == FramesFor(sampleRate, level)
    requires sampleRate * c > 0
    ensures Bucket(f * c, sampleRate * c) == level && Bucket(f * c + c, sampleRate * c) == level
  {
    FramesFit(sampleRate, level);
    BucketOfFrames(sampleRate, c, level, f);
    BucketOfFrames(sampleRate, c, level, f + 1);
    assert (f + 1) * c == f * c + c;
  }

  lemma TwoAppendsDrop(sampleRate: nat, channels: nat, level: nat)
    requires sampleRate >= 20 && channels > 0 && sampleRate * channels > 0 && 6 <= level < BUCKETS
    ensures Run(Start(), sampleRate * channels, TwoAppends(sampleRate, channels, level)).gone
      == Amount(3 * (sampleRate * channels), level)
  {
    var f, rate := FramesFor(sampleRate, level), sampleRate * channels;
    var n := f * channels;
    TwoAppendsFit(sampleRate, channels, level, f);
    TwoAppendsLevels(sampleRate, channels, level, f);
    TwoAppendsGone(rate, channels, level, n, TwoAppends(sampleRate, channels, level));
    PeakDrops(rate, level, n + channels, Cleared()[level := 2], rate * level);
  }

  lemma TwoAppendsWhole(sampleRate: nat, channels: nat, level: nat)
    requires channels > 0
    ensures AllWhole(TwoAppends(sampleRate, channels, level), channels)
  {
    var f := FramesFor(sampleRate, level);
    Multiple(f * channels, f, channels);
    Multiple(channels, 1, channels);
  }

  lemma FramesFit(sampleRate: nat, level: nat)
    requires sampleRate >= 20 && 6 <= level < BUCKETS
    ensures var x, f := sampleRate * level, FramesFor(sampleRate, level);
      x <= 10 * f && 10 * (f + 1) < x + sampleRate && f + 1 <= 3 * sampleRate && x >= 120
  {
    assert sampleRate * level <= sampleRate * 29;
    assert sampleRate * level >= 20 * 6;
  }

  lemma AtLeast(x: nat, a: nat, y: nat, b: nat)
    requires x >= a && y >= b
    ensures x * y >= a * b
  {
    assert x * y >= x * b >= a * b;
  }

  lemma FarFromFramesOdd(sampleRate: nat, channels: nat, level: nat, r: nat)
    requires channels >= 3 && channels % 2 == 1 && r == sampleRate * level % 80 && 14 <= r <= 66
    ensures !WholeLevel(sampleRate, channels, level)
  {
    AtLeast(r, 14, channels, 3);
    AtLeast(80 - r, 14, channels, 3);
  }

  lemma FarFromFramesEven(sampleRate: nat, channels: nat, level: nat, r: nat)
    requires channels >= 4 && r == sampleRate * level % 80 && 11 <= r % 40 <= 29
    ensures !WholeLevel(sampleRate, channels, level)
  {
    AtLeast(r, 11, channels, 4);
    AtLeast(80 - r, 11, channels, 4);
    if r < 40 {
      AtLeast(40 - r, 11, channels, 4);
      assert (r - 40) * channels == -((40 - r) * channels);
    } else {
      AtLeast(r - 40, 11, channels, 4);
    }
  }

  lemma RateTimes(sampleRate: nat, level: nat, d: nat)
    requires d > 0
    ensures sampleRate * level % d == (sampleRate % d * level) % d
  {
    var q, s := sampleRate / d, sampleRate % d;
    assert sampleRate * level == (q * d + s) * level == q * level * d + s * level;
    RestOfSum(q * level, s * level, d);
  }

  lemma RestOfSum(a: nat, b: nat, d: nat)
    requires d > 0
    ensures (a * d + b) % d == b % d
  {
    var r := b % d;
    assert a * d + b == (a + b / d) * d + r;
    Quotient(a * d + b, d, a + b / d);
  }

  lemma NearMultiple(x: nat, d: nat, e: nat) returns (k: nat)
    requires (d == 80 && e == 13) || (d == 40 && e == 10)
    requires x % d <= e || x % d >= d - e
    ensures d * k - e <= x <= d * k + e
  {
    k := if x % d <= e then x / d else x / d + 1;
  }

  /** Where level 6 does not split a frame, for an odd number of channels. */
  lemma SixOdd(s: nat)
    requires 0 < s < 80 && !(14 <= s * 6 % 80 <= 66)
    ensures s <= 2 || 12 <= s <= 15 || 25 <= s <= 28 || 38 <= s <= 42 || 52 <= s <= 55 || 65 <= s <= 68 || 78 <= s
  {
    var k := NearMultiple(s * 6, 80, 13);
    assert 0 <= k <= 6;
  }

  lemma OddLevels(s: nat)
    requires 0 < s < 80 && !(14 <= s * 6 % 80 <= 66)
    ensures 14 <= s * 7 % 80 <= 66 || 14 <= s * 15 % 80 <= 66
  {
    SixOdd(s);
    if 38 <= s <= 42 || 52 <= s <= 55 {
      assert s * 7 / 80 == if s <= 42 then 3 else 4;
    } else if s == 1 || s == 12 || s == 13 || s == 67 || s == 68 || s == 79 {
      assert s * 15 % 80 == if s == 1 then 15 else if s == 12 then 20 else if s == 13 then 35
        else if s == 67 then 45 else if s == 68 then 60 else 65;
    } else {
      assert s * 7 / 80 == if s <= 2 then 0 else if s <= 15 then 1 else if s <= 28 then 2 else if s <= 66 then 5 else 6;
    }
  }

  lemma SixEven(s: nat)
    requires 0 < s < 40 && !(11 <= s * 6 % 40 <= 29)
    ensures s == 1 || 5 <= s <= 8 || 12 <= s <= 15 || 19 <= s <= 21 || 25 <= s <= 28 || 32 <= s <= 35 || s == 39
  {
    var k := NearMultiple(s * 6, 40, 10);
    assert 0 <= k <= 6;
  }

  lemma EvenLevels(s: nat)
    requires 0 < s < 40 && !(11 <= s * 6 % 40 <= 29)
    ensures 11 <= s * 7 % 40 <= 29 || 11 <= s * 8 % 40 <= 29 || 11 <= s * 11 % 40 <= 29
  {
    SixEven(s);
    if s == 1 || s == 5 || s == 6 || s == 34 || s == 35 || s == 39 {
      assert s * 11 % 40 == if s == 1 then 11 else if s == 5 then 15 else if s == 6 then 26
        else if s == 34 then 14 else if s == 35 then 25 else 29;
    } else if s == 7 || s == 12 || s == 28 || s == 33 {
      assert s * 8 % 40 == if s == 7 || s == 12 then 16 else 24;
    } else {
      assert s * 7 / 40 == if s <= 8 then 1 else if s <= 15 then 2 else if s <= 21 then 3 else if s <= 27 then 4 else 5;
    }
  }

  lemma OddLevel(s: nat) returns (level: nat)
    requires 0 < s < 80
    ensures 6 <= level < BUCKETS && 14 <= s * level % 80 <= 66
  {
    if 14 <= s * 6 % 80 <= 66 {
      return 6;
    }
    OddLevels(s);
    if 14 <= s * 7 % 80 <= 66 {
      return 7;
    }
    return 15;
  }

  lemma EvenLevel(s: nat) returns (level: nat)
    requires 0 < s < 40
    ensures 6 <= level < BUCKETS && 11 <= s * level % 40 <= 29
  {
    if 11 <= s * 6 % 40 <= 29 {
      return 6;
    }
    EvenLevels(s);
    if 11 <= s * 7 % 40 <= 29 {
      return 7;
    } else if 11 <= s * 8 % 40 <= 29 {
      return 8;
    }
    return 11;
  }

  lemma OddSplits(sampleRate: nat, channels: nat) returns (level: nat)
    requires channels >= 3 && channels % 2 == 1 && sampleRate % 80 != 0
    ensures 6 <= level < BUCKETS && !WholeLevel(sampleRate, channels, level)
  {
    level := OddLevel(sampleRate % 80);
    RateTimes(sampleRate, level, 80);
    FarFromFramesOdd(sampleRate, channels, level, sampleRate * level % 80);
  }

  lemma TwiceModulo(x: nat)
    ensures x % 80 % 40 == x % 40
  {
  }

  lemma EvenSplits(sampleRate: nat, channels: nat) returns (level: nat)
    requires channels >= 4 && sampleRate % 40 != 0
    ensures 6 <= level < BUCKETS && !WholeLevel(sampleRate, channels, level)
  {
    level := EvenLevel(sampleRate % 40);
    RateTimes(sampleRate, level, 40);
    TwiceModulo(sampleRate * level);
    FarFromFramesEven(sampleRate, channels, level, sampleRate * level % 80);
  }

  /** Everywhere else some level splits frames: one of 6, 7 and 15 for an odd number of channels, one
      of 6, 7, 8 and 11 for an even one. */
  lemma SomeLevelSplits(sampleRate: nat, channels: nat) returns (level: nat)
    requires channels > 0 && !Aligned(sampleRate, channels)
    ensures 6 <= level < BUCKETS && !WholeLevel(sampleRate, channels, level)
  {
    if channels % 2 == 1 {
      level := OddSplits(sampleRate, channels);
    } else {
      level := EvenSplits(sampleRate, channels);
    }
  }

  /** Exactly at the other rates there is a run that leaves the ring off the frame boundaries. */
  lemma FramesKeptIff(sampleRate: nat, channels: nat)
    requires sampleRate >= 20 && channels > 0 && sampleRate * channels > 0
    ensures Aligned(sampleRate, channels) <==>
      forall ops :: AllWhole(ops, channels) ==> OnFrames(Run(Start(), sampleRate * channels, ops), channels)
  {
    if Aligned(sampleRate, channels) {
      forall ops | AllWhole(ops, channels)
        ensures OnFrames(Run(Start(), sampleRate * channels, ops), channels)
      {
        Multiple(0, 0, channels);
        RunsKeepFrames(Start(), sampleRate, channels, ops);
      }
    } else {
      var level := SomeLevelSplits(sampleRate, channels);
      TwoAppendsDrop(sampleRate, channels, level);
      TwoAppendsWhole(sampleRate, channels, level);
      WholeAmountIff(sampleRate, channels, level);
    }
  }

  /** For instance 44.1 kHz and three channels, at seven tenths of a second. */
  lemma ThreeChannelsLoseFrames()
    ensures AllWhole(TwoAppends(44100, 3, 7), 3)
    ensures !OnFrames(Run(Start(), 44100 * 3, TwoAppends(44100, 3, 7)), 3)
  {
    TwoAppendsDrop(44100, 3, 7);
    TwoAppendsWhole(44100, 3, 7);
    WholeAmountIff(44100, 3, 7);
  }
}
