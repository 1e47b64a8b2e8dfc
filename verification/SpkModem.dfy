/** The demodulator's sample reader: two rings of 480, and counts over the older and the newer half of the
    last 480 samples that are kept up to date sample by sample. */
module SpkModem {

  const HALF := 240
  const RING := 480
  const THRESHOLD := 500

  function Abs(x: int): nat { if x < 0 then -x else x }

  // ----- what the counts mean, over everything heard so far -----

  /** Whether the last sample is a pulse: it crosses the threshold on the side that the pulses before it,
      odd or even in number, call for. */
  predicate PulseLast(heard: seq<int>)
    requires |heard| > 0
    decreases |heard|, 0
  {
    var last := heard[|heard| - 1];
    if PulsesIn(heard[..|heard| - 1]) % 2 == 1 then last < -THRESHOLD else last > THRESHOLD
  }

  /** The pulses among all samples. */
  function PulsesIn(heard: seq<int>): nat
    decreases |heard|, 1
  {
    if |heard| == 0 then 0
    else PulsesIn(heard[..|heard| - 1]) + if PulseLast(heard) then 1 else 0
  }

  /** 1 if sample k was a pulse, and 0 if it was none or there was no such sample. */
  function Flag(heard: seq<int>, k: int): nat
    requires k < |heard|
  {
    if k >= 0 && PulseLast(heard[..k + 1]) then 1 else 0
  }

  function Loudness(heard: seq<int>, k: int): nat
    requires k < |heard|
  {
    if k >= 0 then Abs(heard[k]) else 0
  }

  /** Pulses among samples lo to hi - 1. */
  function Count(heard: seq<int>, lo: int, hi: int): (n: nat)
    requires lo <= hi <= |heard|
    ensures n <= hi - lo
    decreases hi - lo
  {
    if lo == hi then 0 else Count(heard, lo, hi - 1) + Flag(heard, hi - 1)
  }

  function TotalLoudness(heard: seq<int>, lo: int, hi: int): nat
    requires lo <= hi <= |heard|
    decreases hi - lo
  {
    if lo == hi then 0 else TotalLoudness(heard, lo, hi - 1) + Loudness(heard, hi - 1)
  }

  // ----- windows -----

  lemma {:induction false} CountFirst(heard: seq<int>, lo: int, hi: int)
    requires lo < hi <= |heard|
    ensures Count(heard, lo, hi) == Flag(heard, lo) + Count(heard, lo + 1, hi)
    decreases hi - lo
  {
    hide Flag;
    if lo < hi - 1 {
      CountFirst(heard, lo, hi - 1);
    }
  }

  lemma {:induction false} LoudnessFirst(heard: seq<int>, lo: int, hi: int)
    requires lo < hi <= |heard|
    ensures TotalLoudness(heard, lo, hi) == Loudness(heard, lo) + TotalLoudness(heard, lo + 1, hi)
    decreases hi - lo
  {
    hide Loudness;
    if lo < hi - 1 {
      LoudnessFirst(heard, lo, hi - 1);
    }
  }

  /** A further sample changes nothing about the earlier ones. */
  lemma {:induction false} EarlierStay(heard: seq<int>, x: int, lo: int, hi: int)
    requires lo <= hi <= |heard|
    ensures Count(heard + [x], lo, hi) == Count(heard, lo, hi)
    ensures TotalLoudness(heard + [x], lo, hi) == TotalLoudness(heard, lo, hi)
    decreases hi - lo
  {
    hide PulseLast;
    if lo < hi {
      EarlierStay(heard, x, lo, hi - 1);
      FlagStays(heard, x, hi - 1);
    }
  }

  lemma FlagStays(heard: seq<int>, x: int, k: int)
    requires k < |heard|
    ensures Flag(heard + [x], k) == Flag(heard, k) && Loudness(heard + [x], k) == Loudness(heard, k)
  {
    hide PulseLast;
    if k >= 0 {
      assert (heard + [x])[..k + 1] == heard[..k + 1];
    }
  }

  /** All pulses are those counted from the first sample on. */
  lemma {:induction false} CountAll(heard: seq<int>)
    ensures Count(heard, 0, |heard|) == PulsesIn(heard)
    decreases |heard|
  {
    if |heard| > 0 {
      var front := heard[..|heard| - 1];
      assert heard == front + [heard[|heard| - 1]] && heard[..|heard|] == heard;
      CountAll(front);
      EarlierStay(front, heard[|heard| - 1], 0, |front|);
    }
  }

  // ----- the same in numbers -----

  /** The pulses among the samples: one above 500, then one below -500, and so on in turn. */
  ghost predicate PulseTimes(times: set<int>, heard: seq<int>) {
    && (forall k :: k in times ==> 0 <= k < |heard|)
    && forall k :: 0 <= k < |heard| ==>
         (k in times <==> if |Among(times, 0, k)| % 2 == 1 then heard[k] < -500 else heard[k] > 500)
  }

  function Among(times: set<int>, lo: int, hi: int): set<int> { set k | k in times && lo <= k < hi }

  ghost function FlaggedTimes(heard: seq<int>): set<int> { set k | 0 <= k < |heard| && Flag(heard, k) == 1 }

  lemma {:induction false} CountIsSize(heard: seq<int>, lo: int, hi: int)
    requires lo <= hi <= |heard|
    ensures |Among(FlaggedTimes(heard), lo, hi)| == Count(heard, lo, hi)
    decreases hi - lo
  {
    hide Flag;
    var times := FlaggedTimes(heard);
    if lo < hi {
      CountIsSize(heard, lo, hi - 1);
      FlagIsBit(heard, hi - 1);
      if hi - 1 in times {
        assert Among(times, lo, hi) == Among(times, lo, hi - 1) + {hi - 1};
      } else {
        assert Among(times, lo, hi) == Among(times, lo, hi - 1);
      }
    } else {
      assert Among(times, lo, hi) == {};
    }
  }

  lemma FlagIsBit(heard: seq<int>, k: int)
    requires k < |heard|
    ensures Flag(heard, k) <= 1 && (k < 0 ==> Flag(heard, k) == 0)
  {
    hide PulseLast;
  }

  lemma {:induction false} FlagWithin(heard: seq<int>, k: nat, lo: int, hi: int)
    requires k <= |heard| && lo <= hi <= k
    ensures Count(heard[..k], lo, hi) == Count(heard, lo, hi)
    decreases hi - lo
  {
    hide PulseLast;
    if lo < hi {
      FlagWithin(heard, k, lo, hi - 1);
      if hi > 0 {
        assert heard[..k][..hi] == heard[..hi];
      }
    }
  }

  lemma FlagSays(heard: seq<int>, k: nat)
    requires k < |heard|
    ensures Flag(heard, k) == 1 <==> if |Among(FlaggedTimes(heard), 0, k)| % 2 == 1 then heard[k] < -500 else heard[k] > 500
  {
    hide FlaggedTimes, Among, Count, PulsesIn;
    CountIsSize(heard, 0, k);
    FlagWithin(heard, k, 0, k);
    CountAll(heard[..k]);
    assert heard[..k + 1][..k] == heard[..k];
  }

  lemma FlaggedArePulses(heard: seq<int>)
    ensures PulseTimes(FlaggedTimes(heard), heard)
  {
    hide Flag, Among;
    forall k | 0 <= k < |heard|
      ensures k in FlaggedTimes(heard) <==>
                if |Among(FlaggedTimes(heard), 0, k)| % 2 == 1 then heard[k] < -500 else heard[k] > 500
    {
      FlagSays(heard, k);
    }
  }

  /** The receiver's numbers after these samples: pulses among the older and the newer 240 of the last 480, and the
      loudness of all 480. */
  ghost predicate Reports(heard: seq<int>, f1: int, f2: int, amplitude: int, pos: bool) {
    var n := |heard|;
    && amplitude == TotalLoudness(heard, n - 480, n)
    && exists times :: PulseTimes(times, heard) && f1 == |Among(times, n - 480, n - 240)| && f2 == |Among(times, n - 240, n)|
                       && pos == (|Among(times, 0, n)| % 2 == 1)
  }

  lemma CountsReport(heard: seq<int>)
    ensures var n := |heard|;
            Reports(heard, Count(heard, n - RING, n - HALF), Count(heard, n - HALF, n), TotalLoudness(heard, n - RING, n), PulsesIn(heard) % 2 == 1)
  {
    hide PulseTimes, Among, FlaggedTimes, Count, TotalLoudness;
    var n := |heard|;
    FlaggedArePulses(heard);
    CountIsSize(heard, n - 480, n - 240);
    CountIsSize(heard, n - 240, n);
    CountIsSize(heard, 0, n);
    CountAll(heard);
  }

  /** Where in the ring the k-th oldest of the 480 is. */
  function Slot(ringpos: nat, k: nat): (i: nat)
    ensures i < RING
  {
    (ringpos + k) % RING
  }

  predicate SlotHolds(trame: seq<int>, pulse: seq<int>, ringpos: nat, heard: seq<int>, k: nat)
    requires |trame| == |pulse| == RING && k < RING
  {
    && Abs(trame[Slot(ringpos, k)]) == Loudness(heard, |heard| - RING + k)
    && pulse[Slot(ringpos, k)] == Flag(heard, |heard| - RING + k)
  }

  /** The rings hold the last 480 samples, the oldest at ringpos. */
  predicate RingsHold(trame: seq<int>, pulse: seq<int>, ringpos: nat, heard: seq<int>) {
    && |trame| == |pulse| == RING && ringpos < RING
    && forall k :: 0 <= k < RING ==> SlotHolds(trame, pulse, ringpos, heard, k)
  }

  class Receiver {
    const trame: array<int>
    const pulse: array<int>
    var ringpos: nat
    var pos: bool
    var f1: int
    var f2: int
    var amplitude: int
    ghost var heard: seq<int>

    /** f1 and f2 count the pulses of the older and of the newer 240 samples, amplitude sums up the
        loudness of all 480, and pos is the parity of all pulses so far. */
    ghost predicate Valid()
      reads this, trame, pulse
    {
      var n := |heard|;
      && trame.Length == RING && pulse.Length == RING && trame != pulse
      && RingsHold(trame[..], pulse[..], ringpos, heard)
      && f1 == Count(heard, n - RING, n - HALF)
      && f2 == Count(heard, n - HALF, n)
      && amplitude == TotalLoudness(heard, n - RING, n)
      && pos == (PulsesIn(heard) % 2 == 1)
    }

    constructor ()
      ensures Valid() && heard == [] && fresh(trame) && fresh(pulse)
    {
      trame := new int[RING](_ => 0);
      pulse := new int[RING](_ => 0);
      ringpos, pos, f1, f2, amplitude, heard := 0, false, 0, 0, 0, [];
      new;
      Silence(HALF, HALF);
      Silence(0, HALF);
      Silence(0, RING);
    }

    /** read_sample: the oldest sample leaves, one crosses from the newer half to the older, x enters. */
    method ReadSample(x: int)
      requires Valid()
      modifies this, trame, pulse
      ensures Valid() && heard == old(heard) + [x]
      ensures Reports(heard, f1, f2, amplitude, pos)
    {
      hide Reports, Count, TotalLoudness, Flag, Loudness, PulsesIn, PulseLast, RingsHold;
      WindowMoves(heard, x);
      ThisSample(heard, x);
      RingStep(trame[..], pulse[..], ringpos, heard, x);
      RingEnds(trame[..], pulse[..], ringpos, heard);
      amplitude := amplitude - Abs(trame[ringpos]);
      f1 := f1 - pulse[ringpos];
      f1 := f1 + pulse[(ringpos + HALF) % RING];
      f2 := f2 - pulse[(ringpos + HALF) % RING];
      trame[ringpos] := x;
      amplitude := amplitude + Abs(trame[ringpos]);
      if if pos then trame[ringpos] < -THRESHOLD else trame[ringpos] > THRESHOLD {
        pulse[ringpos] := 1;
        pos := !pos;
        f2 := f2 + 1;
      } else {
        pulse[ringpos] := 0;
      }
      heard := heard + [x];
      assert trame[..] == old(trame[..])[ringpos := x] && pulse[..] == old(pulse[..])[ringpos := Flag(heard, |heard| - 1)];
      ringpos := (ringpos + 1) % RING;
      CountsReport(heard);
    }

    /** A stretch of samples. */
    method ReadAll(xs: seq<int>)
      requires Valid()
      modifies this, trame, pulse
      ensures Valid() && heard == old(heard) + xs
    {
      hide Reports, RingsHold, Count, TotalLoudness, PulsesIn;
      for i := 0 to |xs|
        invariant Valid() && heard == old(heard) + xs[..i]
      {
        ReadSample(xs[i]);
        assert xs[..i + 1] == xs[..i] + [xs[i]];
      }
      assert xs[..|xs|] == xs;
    }
  }

  lemma RingTurns(ringpos: nat, k: nat)
    requires ringpos < RING && k < RING
    ensures k < RING - 1 ==> Slot((ringpos + 1) % RING, k) == Slot(ringpos, k + 1) != ringpos
    ensures k == RING - 1 ==> Slot((ringpos + 1) % RING, k) == ringpos
  {
  }

  /** The new sample in the place of the oldest. */
  lemma RingStep(trame: seq<int>, pulse: seq<int>, ringpos: nat, heard: seq<int>, x: int)
    requires RingsHold(trame, pulse, ringpos, heard)
    ensures RingsHold(trame[ringpos := x], pulse[ringpos := Flag(heard + [x], |heard|)], (ringpos + 1) % RING, heard + [x])
  {
    hide Flag, Loudness, Slot;
    var n, after := |heard|, heard + [x];
    var trame', pulse', ringpos' := trame[ringpos := x], pulse[ringpos := Flag(after, n)], (ringpos + 1) % RING;
    ThisSample(heard, x);
    forall k | 0 <= k < RING
      ensures SlotHolds(trame', pulse', ringpos', after, k)
    {
      RingTurns(ringpos, k);
      if k < RING - 1 {
        assert SlotHolds(trame, pulse, ringpos, heard, k + 1);
        FlagStays(heard, x, n - RING + k + 1);
      }
    }
  }

  /** What leaves and what crosses over. */
  lemma RingEnds(trame: seq<int>, pulse: seq<int>, ringpos: nat, heard: seq<int>)
    requires RingsHold(trame, pulse, ringpos, heard)
    ensures ringpos < RING == |trame| == |pulse|
    ensures Abs(trame[ringpos]) == Loudness(heard, |heard| - RING) && pulse[ringpos] == Flag(heard, |heard| - RING)
    ensures pulse[(ringpos + HALF) % RING] == Flag(heard, |heard| - HALF)
  {
    hide Flag, Loudness;
    assert Slot(ringpos, 0) == ringpos && Slot(ringpos, HALF) == (ringpos + HALF) % RING;
    assert SlotHolds(trame, pulse, ringpos, heard, 0) && SlotHolds(trame, pulse, ringpos, heard, HALF);
  }

  lemma {:induction false} Silence(before: int, length: nat)
    requires before >= 0
    ensures Count([], 0 - before - length, 0 - before) == 0 && TotalLoudness([], 0 - before - length, 0 - before) == 0
    decreases length
  {
    if length > 0 {
      Silence(before + 1, length - 1);
    }
  }

  /** How the windows move by one sample. */
  lemma WindowMoves(heard: seq<int>, x: int)
    ensures var n, after := |heard|, heard + [x];
            && Count(after, n + 1 - RING, n + 1 - HALF)
                 == Count(heard, n - RING, n - HALF) - Flag(heard, n - RING) + Flag(heard, n - HALF)
            && Count(after, n + 1 - HALF, n + 1) == Count(heard, n - HALF, n) - Flag(heard, n - HALF) + Flag(after, n)
            && TotalLoudness(after, n + 1 - RING, n + 1) == TotalLoudness(heard, n - RING, n) - Loudness(heard, n - RING) + Abs(x)
  {
    hide Flag;
    var n, after := |heard|, heard + [x];
    CountFirst(heard, n - RING, n - HALF);
    CountFirst(heard, n - HALF, n);
    LoudnessFirst(heard, n - RING, n);
    EarlierStay(heard, x, n + 1 - RING, n - HALF);
    EarlierStay(heard, x, n + 1 - HALF, n);
    EarlierStay(heard, x, n + 1 - RING, n);
    FlagStays(heard, x, n - HALF);
  }

  /** Whether the new sample is a pulse, and what that does to the parity. */
  lemma ThisSample(heard: seq<int>, x: int)
    ensures var after := heard + [x];
            && Loudness(after, |heard|) == Abs(x)
            && Flag(after, |heard|) == (if (if PulsesIn(heard) % 2 == 1 then x < -THRESHOLD else x > THRESHOLD) then 1 else 0)
            && PulsesIn(after) == PulsesIn(heard) + Flag(after, |heard|)
  {
    var after := heard + [x];
    assert after[..|heard|] == heard && after[..|heard| + 1] == after;
  }
}
