/**
 The burst times of the transmit sink (src/http_sink.rs): each burst starts when it
 wants to or one sample period after the one before, whichever is later.
 */
module BurstSchedule {
  /** A wall-clock reading and the number of samples submitted at it. */
  datatype Submission = Submission(now: real, count: nat)

  function MaxReal(a: real, b: real): real {
    if a < b then b else a
  }

  /** A burst's length together with the sample period after it. */
  function Slot(s: Submission, rate: real): real
    requires rate > 0.0
  {
    s.count as real / rate + 1.0 / rate
  }

  /** The earliest start left by the submissions so far. */
  function NextFree(initial: real, delay: real, rate: real, subs: seq<Submission>): real
    requires rate > 0.0
  {
    if subs == [] then initial
    else
      var last := subs[|subs| - 1];
      MaxReal(last.now + delay, NextFree(initial, delay, rate, subs[..|subs| - 1])) + Slot(last, rate)
  }

  /** The start of burst `k`. */
  function StartTime(initial: real, delay: real, rate: real, subs: seq<Submission>, k: nat): real
    requires rate > 0.0 && k < |subs|
  {
    MaxReal(subs[k].now + delay, NextFree(initial, delay, rate, subs[..k]))
  }

  /** The slots of submissions `lo..hi`. */
  function Span(rate: real, subs: seq<Submission>, lo: nat, hi: nat): real
    requires rate > 0.0 && lo <= hi <= |subs|
  {
    if lo == hi then 0.0 else Span(rate, subs, lo, hi - 1) + Slot(subs[hi - 1], rate)
  }

  // ---------------------------------------------------------------- one submission

  lemma {:induction false} ScheduleStep(initial: real, delay: real, rate: real, subs: seq<Submission>, s: Submission)
    requires rate > 0.0
    ensures var start := MaxReal(s.now + delay, NextFree(initial, delay, rate, subs));
            && StartTime(initial, delay, rate, subs + [s], |subs|) == start
            && NextFree(initial, delay, rate, subs + [s]) == start + s.count as real / rate + 1.0 / rate
  {
    assert (subs + [s])[..|subs|] == subs;
  }

  lemma {:induction false} EarlierStarts(initial: real, delay: real, rate: real, subs: seq<Submission>, s: Submission)
    requires rate > 0.0
    ensures forall k: nat | k < |subs| ::
              (subs + [s])[k] == subs[k]
              && StartTime(initial, delay, rate, subs + [s], k) == StartTime(initial, delay, rate, subs, k)
  {
    forall k: nat | k < |subs|
      ensures StartTime(initial, delay, rate, subs + [s], k) == StartTime(initial, delay, rate, subs, k)
    {
      assert (subs + [s])[..k] == subs[..k];
    }
  }

  // ---------------------------------------------------------------- laws

  lemma {:induction false} SlotPositive(s: Submission, rate: real)
    requires rate > 0.0
    ensures Slot(s, rate) >= 1.0 / rate > 0.0
  {
    var count := s.count as real;
    assert count / rate >= 0.0;
  }

  lemma {:induction false} SpanSplit(rate: real, subs: seq<Submission>, lo: nat, mid: nat, hi: nat)
    requires rate > 0.0 && lo <= mid <= hi <= |subs|
    ensures Span(rate, subs, lo, hi) == Span(rate, subs, lo, mid) + Span(rate, subs, mid, hi)
    decreases hi
  {
    if mid < hi {
      SpanSplit(rate, subs, lo, mid, hi - 1);
    }
  }

  lemma {:induction false} SpanPositive(rate: real, subs: seq<Submission>, lo: nat, hi: nat)
    requires rate > 0.0 && lo <= hi <= |subs|
    ensures Span(rate, subs, lo, hi) >= 0.0
    decreases hi
  {
    if lo < hi {
      SlotPositive(subs[hi - 1], rate);
      SpanPositive(rate, subs, lo, hi - 1);
    }
  }

  /** No start is earlier than an earlier wish, or the initial time, plus the slots in between. */
  lemma {:induction false} StartBounds(initial: real, delay: real, rate: real, subs: seq<Submission>, j: nat, k: nat)
    requires rate > 0.0 && j <= k < |subs|
    ensures StartTime(initial, delay, rate, subs, k) >= subs[j].now + delay + Span(rate, subs, j, k)
    ensures StartTime(initial, delay, rate, subs, k) >= initial + Span(rate, subs, 0, k)
    decreases k
  {
    if k > 0 {
      FreeFollowsStart(initial, delay, rate, subs, k);
      StartBounds(initial, delay, rate, subs, if j < k then j else k - 1, k - 1);
    }
  }

  lemma {:induction false} FreeFollowsStart(initial: real, delay: real, rate: real, subs: seq<Submission>, k: nat)
    requires rate > 0.0 && 0 < k < |subs|
    ensures NextFree(initial, delay, rate, subs[..k])
            == StartTime(initial, delay, rate, subs, k - 1) + Slot(subs[k - 1], rate)
  {
    assert subs[..k][..k - 1] == subs[..k - 1];
  }

  /** The bound is met: by the initial time, or by the returned submission. */
  lemma {:induction false} StartAttained(
    initial: real, delay: real, rate: real, subs: seq<Submission>, k: nat) returns (j: nat)
    requires rate > 0.0 && k < |subs|
    ensures j <= k + 1
    ensures j <= k ==> StartTime(initial, delay, rate, subs, k) == subs[j].now + delay + Span(rate, subs, j, k)
    ensures j == k + 1 ==> StartTime(initial, delay, rate, subs, k) == initial + Span(rate, subs, 0, k)
    decreases k
  {
    if StartTime(initial, delay, rate, subs, k) == subs[k].now + delay {
      j := k;
    } else if k == 0 {
      j := 1;
    } else {
      FreeFollowsStart(initial, delay, rate, subs, k);
      j := StartAttained(initial, delay, rate, subs, k - 1);
      if j == k {
        j := k + 1;
      }
    }
  }

  /** Wish `j` of burst `k`, or the initial time when `j` is past `k`, with the slots in between. */
  function Candidate(initial: real, delay: real, rate: real, subs: seq<Submission>, j: nat, k: nat): real
    requires rate > 0.0 && k < |subs|
  {
    if j <= k then subs[j].now + delay + Span(rate, subs, j, k) else initial + Span(rate, subs, 0, k)
  }

  /** Each start is the maximum of its candidates: the closed form of the recursion. */
  lemma {:induction false} StartIsMaximum(initial: real, delay: real, rate: real, subs: seq<Submission>, k: nat)
    requires rate > 0.0 && k < |subs|
    ensures var start := StartTime(initial, delay, rate, subs, k);
            && (forall j: nat | j <= k + 1 :: Candidate(initial, delay, rate, subs, j, k) <= start)
            && (exists j: nat | j <= k + 1 :: Candidate(initial, delay, rate, subs, j, k) == start)
  {
    hide StartTime, Span;
    forall j: nat | j <= k + 1
      ensures Candidate(initial, delay, rate, subs, j, k) <= StartTime(initial, delay, rate, subs, k)
    {
      StartBounds(initial, delay, rate, subs, if j <= k then j else k, k);
    }
    var j := StartAttained(initial, delay, rate, subs, k);
    assert Candidate(initial, delay, rate, subs, j, k) == StartTime(initial, delay, rate, subs, k);
  }

  /** Each start is the wish, or the end of the burst before and one sample period, whichever is later. */
  lemma {:induction false} StartStep(initial: real, delay: real, rate: real, subs: seq<Submission>, k: nat)
    requires rate > 0.0 && k < |subs|
    ensures var wish, start := subs[k].now + delay, StartTime(initial, delay, rate, subs, k);
            var free :=
              if k == 0 then initial
              else StartTime(initial, delay, rate, subs, k - 1) + subs[k - 1].count as real / rate + 1.0 / rate;
            start >= wish && start >= free && (start == wish || start == free)
  {
    if k > 0 {
      FreeFollowsStart(initial, delay, rate, subs, k);
    }
  }

  /** The slots of a span are one sample period for each of its samples and one for each of its bursts. */
  lemma {:induction false} SpanCounts(rate: real, subs: seq<Submission>, lo: nat, hi: nat)
    requires rate > 0.0 && lo <= hi <= |subs|
    ensures Span(rate, subs, lo, hi) * rate == (SampleTotal(subs, lo, hi) + (hi - lo)) as real
    decreases hi
  {
    if lo < hi {
      SpanCounts(rate, subs, lo, hi - 1);
      SlotCounts(subs[hi - 1], rate);
      var before, slot := Span(rate, subs, lo, hi - 1), Slot(subs[hi - 1], rate);
      assert (before + slot) * rate == before * rate + slot * rate;
    }
  }

  lemma {:induction false} SlotCounts(s: Submission, rate: real)
    requires rate > 0.0
    ensures Slot(s, rate) * rate == (s.count + 1) as real
  {
    var n := s.count as real;
    assert (n / rate + 1.0 / rate) * rate == n / rate * rate + 1.0 / rate * rate;
  }

  /** Samples of submissions `lo..hi`. */
  function SampleTotal(subs: seq<Submission>, lo: nat, hi: nat): nat
    requires lo <= hi <= |subs|
  {
    if lo == hi then 0 else SampleTotal(subs, lo, hi - 1) + subs[hi - 1].count
  }

  /** Later bursts start at least a whole slot after earlier ones. */
  lemma {:induction false} StartsOrdered(initial: real, delay: real, rate: real, subs: seq<Submission>, i: nat, j: nat)
    requires rate > 0.0 && i < j < |subs|
    ensures StartTime(initial, delay, rate, subs, i) + Slot(subs[i], rate) <= StartTime(initial, delay, rate, subs, j)
    decreases j
  {
    hide Slot;
    FreeFollowsStart(initial, delay, rate, subs, j);
    if i < j - 1 {
      StartsOrdered(initial, delay, rate, subs, i, j - 1);
      SlotPositive(subs[j - 1], rate);
    }
  }
}
