/**
 The throughput meter of src/link_budget.rs and what it measures over a whole run.
 Instants and durations are nanosecond counts.
 */
module Meter {
  import opened Results

  const U64_MAX: nat := 0xFFFF_FFFF_FFFF_FFFF

  function SaturatingAdd(a: nat, b: nat): nat {
    if a + b > U64_MAX then U64_MAX else a + b
  }

  /** Elapsed time, zero when the second instant is the earlier one. */
  function Since(at: nat, from: nat): nat {
    if at < from then 0 else at - from
  }

  datatype Measurement = Measurement(byteRate: real, bytes: nat, window: nat, settle: nat, settleBytes: nat)

  /** The fields of the meter that change. */
  datatype State = State(
    mark: Option<nat>, last: Option<nat>, discarded: nat, counted: nat, closed: bool, consumerLimited: bool)

  /** The fields that are set once. */
  datatype Config = Config(settle: nat, window: nat, openedAt: nat)

  const INITIAL: State := State(None, None, 0, 0, false, false)

  // ---------------------------------------------------------------- the transitions

  function Observed(c: Config, s: State, at: nat, bytes: nat): State {
    if s.closed then s
    else if Since(at, c.openedAt) < c.settle then s.(discarded := SaturatingAdd(s.discarded, bytes))
    else match s.mark
      case None => s.(mark := Some(at), discarded := SaturatingAdd(s.discarded, bytes))
      case Some(mark) =>
        if Since(at, mark) >= c.window then s.(closed := true)
        else s.(counted := SaturatingAdd(s.counted, bytes), last := Some(at))
  }

  function Noted(s: State, at: nat): State {
    if !s.closed && s.mark.Some? && at >= s.mark.value then s.(consumerLimited := true) else s
  }

  const NANOS_PER_SECOND: nat := 1_000_000_000

  /** Bytes per second over `window` nanoseconds. */
  function Rate(bytes: nat, window: nat): real
    requires window > 0
  {
    bytes as real * (NANOS_PER_SECOND as real) / (window as real)
  }

  function Finished(c: Config, s: State): Option<Measurement> {
    if !s.closed || s.counted == 0 then None
    else match (s.mark, s.last)
      case (Some(mark), Some(last)) =>
        var window := Since(last, mark);
        if window == 0 || window < c.window / 2 then None
        else Some(Measurement(Rate(s.counted, window), s.counted, window, Since(mark, c.openedAt), s.discarded))
      case _ => None
  }

  class ThroughputMeter {
    const config: Config
    var mark: Option<nat>
    var last: Option<nat>
    var discardedBytes: nat
    var countedBytes: nat
    var closed: bool
    var consumerLimited: bool

    function Current(): State
      reads this
    {
      State(mark, last, discardedBytes, countedBytes, closed, consumerLimited)
    }

    constructor StartingAt(openedAt: nat, settle: nat, window: nat)
      ensures config == Config(settle, window, openedAt) && Current() == INITIAL
    {
      config := Config(settle, window, openedAt);
      mark, last := None, None;
      discardedBytes, countedBytes := 0, 0;
      closed, consumerLimited := false, false;
    }

    method NoteConsumerLimited(at: nat)
      modifies this
      ensures Current() == Noted(old(Current()), at)
    {
      if !closed && mark.Some? && at >= mark.value {
        consumerLimited := true;
      }
    }

    method Observe(at: nat, bytes: nat) returns (complete: bool)
      modifies this
      ensures Current() == Observed(config, old(Current()), at, bytes)
      ensures complete == closed
    {
      if closed {
        return true;
      }
      if Since(at, config.openedAt) < config.settle {
        discardedBytes := SaturatingAdd(discardedBytes, bytes);
        return false;
      }
      match mark {
        case None =>
          mark := Some(at);
          discardedBytes := SaturatingAdd(discardedBytes, bytes);
        case Some(m) =>
          if Since(at, m) >= config.window {
            closed := true;
          } else {
            countedBytes := SaturatingAdd(countedBytes, bytes);
            last := Some(at);
          }
      }
      complete := closed;
    }

    method Finish() returns (r: Option<Measurement>)
      ensures r == Finished(config, Current())
    {
      if !closed || countedBytes == 0 {
        return None;
      }
      if mark.None? || last.None? {
        return None;
      }
      var window := Since(last.value, mark.value);
      if window == 0 || window < config.window / 2 {
        return None;
      }
      var settle := Since(mark.value, config.openedAt);
      r := Some(Measurement(Rate(countedBytes, window), countedBytes, window, settle, discardedBytes));
    }
  }

  // ---------------------------------------------------------------- whole runs

  datatype Event = Observation(at: nat, bytes: nat) | ConsumerWait(at: nat)

  function Apply(c: Config, s: State, e: Event): State {
    match e
    case Observation(at, bytes) => Observed(c, s, at, bytes)
    case ConsumerWait(at) => Noted(s, at)
  }

  function RunFrom(c: Config, s: State, events: seq<Event>): State
    decreases |events|
  {
    if events == [] then s else RunFrom(c, Apply(c, s, events[0]), events[1..])
  }

  function RunAll(c: Config, events: seq<Event>): State {
    RunFrom(c, INITIAL, events)
  }

  /** Instants never go backwards. */
  predicate Monotone(events: seq<Event>) {
    forall i, j | 0 <= i <= j < |events| :: events[i].at <= events[j].at
  }

  lemma {:induction false} MonotoneTail(events: seq<Event>)
    requires Monotone(events) && events != []
    ensures Monotone(events[1..]) && forall e | e in events[1..] :: events[0].at <= e.at
  {
  }

  // ---------------------------------------------------------------- the reference: what a run measures

  predicate Settled(c: Config, e: Event) {
    e.Observation? && (c.settle == 0 || e.at >= c.openedAt + c.settle)
  }

  /** Everything up to and including the first observation past the settle period, which sets the mark. */
  function FromMark(c: Config, events: seq<Event>): seq<Event> {
    if events == [] || Settled(c, events[0]) then events else FromMark(c, events[1..])
  }

  /** Bytes of the observations with instants before `end`. */
  function BytesBefore(events: seq<Event>, end: nat): nat {
    if events == [] then 0
    else (if events[0].Observation? && events[0].at < end then events[0].bytes else 0) + BytesBefore(events[1..], end)
  }

  /** The latest observation before `end`. */
  function LatestBefore(events: seq<Event>, end: nat): Option<nat> {
    if events == [] then None
    else
      var later := LatestBefore(events[1..], end);
      if later.Some? then later
      else if events[0].Observation? && events[0].at < end then Some(events[0].at) else None
  }

  /** An observation at or past `end`. */
  predicate ReachedEnd(events: seq<Event>, end: nat) {
    exists e | e in events :: e.Observation? && e.at >= end
  }

  /** A byte count as a u64 holds it. */
  function Capped(bytes: nat): nat {
    if bytes > 0xFFFF_FFFF_FFFF_FFFF then 0xFFFF_FFFF_FFFF_FFFF else bytes
  }

  /** Nothing changes the meter once it has closed. */
  lemma {:induction false} ClosedIsFinal(c: Config, s: State, events: seq<Event>)
    requires s.closed
    ensures RunFrom(c, s, events) == s
    decreases |events|
  {
    if events != [] {
      ClosedIsFinal(c, s, events[1..]);
    }
  }

  /** One event while counting. */
  lemma {:induction false} CountingStep(c: Config, s: State, e: Event)
    requires s.mark.Some? && !s.closed && s.mark.value <= e.at && Since(e.at, c.openedAt) >= c.settle
    ensures var next, inside := Apply(c, s, e), e.at < s.mark.value + c.window;
            && next.mark == s.mark && next.discarded == s.discarded
            && next.counted == (if e.Observation? && inside then SaturatingAdd(s.counted, e.bytes) else s.counted)
            && next.last == (if e.Observation? && inside then Some(e.at) else s.last)
            && (next.closed <==> e.Observation? && !inside)
  {
  }

  /** Counting from a mark: what an open meter ends up with, in terms of instants alone. */
  lemma {:induction false} CountingRun(c: Config, s: State, events: seq<Event>)
    requires Monotone(events) && s.mark.Some? && !s.closed && s.counted <= U64_MAX
    requires forall e | e in events :: s.mark.value <= e.at && Since(e.at, c.openedAt) >= c.settle
    ensures var end, r := s.mark.value + c.window, RunFrom(c, s, events);
            && r.mark == s.mark && r.discarded == s.discarded
            && r.counted == Capped(s.counted + BytesBefore(events, end))
            && r.last == (if LatestBefore(events, end).Some? then LatestBefore(events, end) else s.last)
            && (r.closed <==> ReachedEnd(events, end))
    decreases |events|
  {
    hide Apply, Monotone, ReachedEnd;
    if events != [] {
      var e, end := events[0], s.mark.value + c.window;
      CountingStep(c, s, e);
      var next := Apply(c, s, e);
      assert e in events;
      MonotoneTail(events);
      EndSplits(events, end);
      if next.closed {
        ClosedIsFinal(c, next, events[1..]);
        AllPast(events[1..], end);
      } else {
        CountingRun(c, next, events[1..]);
      }
    } else {
      EmptyNeverEnds(s.mark.value + c.window);
    }
  }

  lemma {:induction false} EmptyNeverEnds(end: nat)
    ensures !ReachedEnd([], end)
  {
  }

  lemma {:induction false} EndSplits(events: seq<Event>, end: nat)
    requires events != []
    ensures ReachedEnd(events, end) <==> (events[0].Observation? && events[0].at >= end) || ReachedEnd(events[1..], end)
  {
    if ReachedEnd(events, end) {
      var e :| e in events && e.Observation? && e.at >= end;
      assert e == events[0] || e in events[1..];
    }
  }

  lemma {:induction false} AllPast(events: seq<Event>, end: nat)
    requires forall e | e in events :: e.at >= end
    ensures BytesBefore(events, end) == 0 && LatestBefore(events, end) == None
  {
    if events != [] {
      assert events[0] in events;
      AllPast(events[1..], end);
    }
  }

  /** Bytes observed up to and including the mark. */
  function BytesThroughMark(c: Config, events: seq<Event>): nat {
    if events == [] then 0
    else
      (if events[0].Observation? then events[0].bytes else 0)
      + (if Settled(c, events[0]) then 0 else BytesThroughMark(c, events[1..]))
  }

  /** Up to the mark the bytes are discarded and nothing else moves. */
  lemma {:induction false} SettlingRun(c: Config, s: State, events: seq<Event>)
    requires s.mark.None? && !s.closed && s.discarded <= U64_MAX
    ensures var after := FromMark(c, events);
            var discarded := Capped(s.discarded + BytesThroughMark(c, events));
            RunFrom(c, s, events)
            == if after == [] then s.(discarded := discarded)
               else RunFrom(c, s.(mark := Some(after[0].at), discarded := discarded), after[1..])
    decreases |events|
  {
    if events == [] {
      assert s == s.(discarded := s.discarded);
    } else if !Settled(c, events[0]) {
      SettlingRun(c, Apply(c, s, events[0]), events[1..]);
    }
  }

  lemma {:induction false} FromMarkMonotone(c: Config, events: seq<Event>)
    requires Monotone(events)
    ensures var after := FromMark(c, events);
            && Monotone(after)
            && (after != [] ==>
                  && Settled(c, after[0])
                  && forall e | e in after[1..] :: after[0].at <= e.at && Since(e.at, c.openedAt) >= c.settle)
    decreases |events|
  {
    if events != [] {
      MonotoneTail(events);
      if !Settled(c, events[0]) {
        FromMarkMonotone(c, events[1..]);
      }
    }
  }

  /**
   What a run measures: the mark is the first observation past the settle period; the
   count is the bytes of the later observations before mark + window, and nothing else;
   the window closes exactly when some later observation is at or past mark + window.
   */
  lemma {:induction false} RunMeasures(c: Config, events: seq<Event>)
    requires Monotone(events)
    ensures var after, r := FromMark(c, events), RunAll(c, events);
            && r.discarded == Capped(BytesThroughMark(c, events))
            && if after == [] then r.mark.None? && !r.closed && r.counted == 0
            else
              var mark, later := after[0].at, after[1..];
              && r.mark == Some(mark)
              && r.counted == Capped(BytesBefore(later, mark + c.window))
              && r.last == LatestBefore(later, mark + c.window)
              && (r.closed <==> ReachedEnd(later, mark + c.window))
  {
    hide RunFrom, FromMark, BytesBefore, LatestBefore, ReachedEnd, BytesThroughMark, Capped;
    var after := FromMark(c, events);
    SettlingRun(c, INITIAL, events);
    FromMarkMonotone(c, events);
    if after != [] {
      var discarded := Capped(BytesThroughMark(c, events));
      MonotoneTail(after);
      CountingRun(c, INITIAL.(mark := Some(after[0].at), discarded := discarded), after[1..]);
    }
  }

  lemma {:induction false} LatestInside(events: seq<Event>, end: nat)
    ensures LatestBefore(events, end).Some? ==>
              LatestBefore(events, end).value < end && exists e | e in events :: e.at == LatestBefore(events, end).value
  {
    if events != [] {
      LatestInside(events[1..], end);
      assert events[0] in events;
      if e :| e in events[1..] && LatestBefore(events[1..], end) == Some(e.at) {
        assert e in events;
      }
    }
  }

  /**
   A measurement, when there is one, counts exactly the bytes observed after the mark
   and before mark + window, over the interval from the mark to the last of them, at least
   half the window long and less than it; its rate is that count per second of the interval.
   */
  lemma {:induction false} MeasurementIsExact(c: Config, events: seq<Event>)
    requires Monotone(events) && Finished(c, RunAll(c, events)).Some?
    ensures var m, after := Finished(c, RunAll(c, events)).value, FromMark(c, events);
            && after != []
            && var mark, later := after[0].at, after[1..];
               && m.bytes == Capped(BytesBefore(later, mark + c.window)) > 0
               && LatestBefore(later, mark + c.window) == Some(mark + m.window)
               && c.window / 2 <= m.window < c.window && m.window > 0
               && m.byteRate * (m.window as real) == m.bytes as real * 1_000_000_000.0
               && m.settle == (if mark < c.openedAt then 0 else mark - c.openedAt) >= c.settle
               && m.settleBytes == Capped(BytesThroughMark(c, events))
  {
    hide RunAll, FromMark, Finished, BytesBefore, LatestBefore, BytesThroughMark, Capped, ReachedEnd;
    RunMeasures(c, events);
    FromMarkMonotone(c, events);
    FinishedFields(c, RunAll(c, events));
    var after := FromMark(c, events);
    LatestInside(after[1..], after[0].at + c.window);
  }

  /** A measurement in terms of the meter's fields. */
  lemma {:induction false} FinishedFields(c: Config, s: State)
    requires Finished(c, s).Some?
    ensures var m := Finished(c, s).value;
            && s.closed && s.mark.Some? && s.last.Some? && s.mark.value < s.last.value
            && m.bytes == s.counted > 0
            && s.mark.value + m.window == s.last.value && m.window >= c.window / 2
            && m.byteRate * (m.window as real) == m.bytes as real * 1_000_000_000.0
            && m.settle == (if s.mark.value < c.openedAt then 0 else s.mark.value - c.openedAt)
            && m.settleBytes == s.discarded
  {
    hide Rate;
    RateMeaning(s.counted, Finished(c, s).value.window);
  }

  lemma {:induction false} RateMeaning(bytes: nat, window: nat)
    requires window > 0
    ensures Rate(bytes, window) * (window as real) == bytes as real * 1_000_000_000.0
  {
    var b, w := bytes as real * 1_000_000_000.0, window as real;
    assert b / w * w == b;
  }

  /** The rate times the seconds from the mark to the last counted observation is the bytes counted between. */
  lemma {:induction false} RateTimesSeconds(c: Config, events: seq<Event>)
    requires Monotone(events) && Finished(c, RunAll(c, events)).Some?
    ensures var m, after := Finished(c, RunAll(c, events)).value, FromMark(c, events);
            && after != []
            && var mark, later := after[0].at, after[1..];
               var last, counted := LatestBefore(later, mark + c.window), BytesBefore(later, mark + c.window);
               && last.Some? && last.value > mark
               && var seconds := (last.value - mark) as real / 1_000_000_000.0;
                  counted <= 0xFFFF_FFFF_FFFF_FFFF ==> m.byteRate * seconds == counted as real
  {
    hide RunAll, FromMark, Finished, LatestBefore, BytesBefore;
    MeasurementIsExact(c, events);
    var m, after := Finished(c, RunAll(c, events)).value, FromMark(c, events);
    var rate, window, bytes := m.byteRate, m.window as real, m.bytes as real;
    assert rate * (window / 1_000_000_000.0) == rate * window / 1_000_000_000.0;
  }

  /** There is a measurement exactly when the window has closed over enough counted time and some counted bytes. */
  lemma {:induction false} MeasuredIff(c: Config, events: seq<Event>)
    requires Monotone(events)
    ensures var after := FromMark(c, events);
            Finished(c, RunAll(c, events)).Some?
            <==> after != []
                 && var mark, later := after[0].at, after[1..];
                    var last := LatestBefore(later, mark + c.window);
                    && ReachedEnd(later, mark + c.window)
                    && BytesBefore(later, mark + c.window) > 0
                    && last.Some? && last.value > mark && last.value - mark >= c.window / 2
  {
    hide RunAll, FromMark, ReachedEnd;
    RunMeasures(c, events);
  }

  // ---------------------------------------------------------------- non-interference

  /** Two runs with the same instants whose byte counts agree on the later observations before `end`. */
  predicate AgreeBefore(a: seq<Event>, b: seq<Event>, end: nat) {
    && |a| == |b|
    && forall i | 0 <= i < |a| ::
         && a[i].at == b[i].at
         && (a[i].Observation? <==> b[i].Observation?)
         && (a[i].Observation? && a[i].at < end ==> a[i].bytes == b[i].bytes)
  }

  lemma {:induction false} AgreeingCounts(a: seq<Event>, b: seq<Event>, end: nat)
    requires AgreeBefore(a, b, end)
    ensures BytesBefore(a, end) == BytesBefore(b, end)
    ensures LatestBefore(a, end) == LatestBefore(b, end)
    ensures ReachedEnd(a, end) <==> ReachedEnd(b, end)
    decreases |a|
  {
    if a != [] {
      AgreeingCounts(a[1..], b[1..], end);
      EndSplits(a, end);
      EndSplits(b, end);
    }
  }

  /** The two runs differ in byte counts only, and those before the end of the counting window after the mark agree. */
  predicate SameCounting(c: Config, a: seq<Event>, b: seq<Event>) {
    && |a| == |b|
    && (forall i | 0 <= i < |a| :: a[i].at == b[i].at && (a[i].Observation? <==> b[i].Observation?))
    && (FromMark(c, a) != [] && FromMark(c, b) != [] ==>
          AgreeBefore(FromMark(c, a)[1..], FromMark(c, b)[1..], FromMark(c, a)[0].at + c.window))
  }

  lemma {:induction false} SameMark(c: Config, a: seq<Event>, b: seq<Event>)
    requires |a| == |b|
    requires forall i | 0 <= i < |a| :: a[i].at == b[i].at && (a[i].Observation? <==> b[i].Observation?)
    ensures |FromMark(c, a)| == |FromMark(c, b)|
    ensures FromMark(c, a) != [] ==> FromMark(c, a)[0].at == FromMark(c, b)[0].at
    decreases |a|
  {
    if a != [] && !Settled(c, a[0]) {
      SameMark(c, a[1..], b[1..]);
    }
  }

  /** What the verdict is computed from: everything but the count of discarded bytes. */
  function Judged(m: Option<Measurement>): Option<(real, nat, nat, nat)> {
    match m
    case None => None
    case Some(x) => Some((x.byteRate, x.bytes, x.window, x.settle))
  }

  /**
   Backlog and late bytes do not influence the answer: runs that differ only in byte
   counts up to the mark, or at and past mark + window, measure the same.
   */
  lemma {:induction false} NonInterference(c: Config, a: seq<Event>, b: seq<Event>)
    requires Monotone(a) && Monotone(b) && SameCounting(c, a, b)
    ensures Judged(Finished(c, RunAll(c, a))) == Judged(Finished(c, RunAll(c, b)))
  {
    hide RunAll, Monotone, AgreeBefore, FromMark;
    RunMeasures(c, a);
    RunMeasures(c, b);
    SameMark(c, a, b);
    var x, y := FromMark(c, a), FromMark(c, b);
    if x != [] {
      AgreeingCounts(x[1..], y[1..], x[0].at + c.window);
    }
  }

  /** Events after the closing observation change nothing at all. */
  lemma {:induction false} LateEventsIgnored(c: Config, events: seq<Event>, late: seq<Event>)
    requires RunAll(c, events).closed
    ensures RunAll(c, events + late) == RunAll(c, events)
  {
    RunAppend(c, INITIAL, events, late);
    ClosedIsFinal(c, RunAll(c, events), late);
  }

  lemma {:induction false} RunAppend(c: Config, s: State, first: seq<Event>, second: seq<Event>)
    ensures RunFrom(c, s, first + second) == RunFrom(c, RunFrom(c, s, first), second)
    decreases |first|
  {
    if first == [] {
      assert first + second == second;
    } else {
      assert (first + second)[1..] == first[1..] + second;
      RunAppend(c, Apply(c, s, first[0]), first[1..], second);
    }
  }

  // ---------------------------------------------------------------- consumer-limited windows

  /** Some event is a consumer wait that no observation at or past `end` precedes. */
  predicate WaitsBefore(events: seq<Event>, end: nat) {
    exists i: nat | i < |events| :: events[i].ConsumerWait? && !ReachedEnd(events[..i], end)
  }

  lemma {:induction false} WaitSplits(events: seq<Event>, end: nat)
    requires events != []
    ensures var e, tail := events[0], events[1..];
            WaitsBefore(events, end)
            <==> e.ConsumerWait? || ((e.at < end || !e.Observation?) && WaitsBefore(tail, end))
  {
    hide ReachedEnd;
    var e, tail := events[0], events[1..];
    EmptyNeverEnds(end);
    forall i: nat | i < |tail|
      ensures ReachedEnd(events[..i + 1], end) <==> (e.Observation? && e.at >= end) || ReachedEnd(tail[..i], end)
    {
      assert events[..i + 1][1..] == tail[..i];
      EndSplits(events[..i + 1], end);
    }
    assert e.ConsumerWait? ==> events[..0] == [];
    if i: nat :| i < |events| && events[i].ConsumerWait? && !ReachedEnd(events[..i], end) {
      assert i > 0 ==> tail[i - 1] == events[i] && !ReachedEnd(events[..(i - 1) + 1], end);
    }
    if i: nat :| i < |tail| && tail[i].ConsumerWait? && !ReachedEnd(tail[..i], end) {
      assert events[i + 1] == tail[i];
    }
  }

  /** While counting, the flag is set exactly by a wait before the close. */
  lemma {:induction false} CountingWaits(c: Config, s: State, events: seq<Event>)
    requires Monotone(events) && s.mark.Some? && !s.closed
    requires forall e | e in events :: s.mark.value <= e.at && Since(e.at, c.openedAt) >= c.settle
    ensures RunFrom(c, s, events).consumerLimited
            <==> s.consumerLimited || WaitsBefore(events, s.mark.value + c.window)
    decreases |events|
  {
    hide Monotone, WaitsBefore;
    if events != [] {
      var e, end := events[0], s.mark.value + c.window;
      assert e in events;
      CountingStep(c, s, e);
      MonotoneTail(events);
      WaitSplits(events, end);
      var next := Apply(c, s, e);
      if next.closed {
        ClosedIsFinal(c, next, events[1..]);
      } else {
        CountingWaits(c, next, events[1..]);
      }
    } else {
      NoWaits(s.mark.value + c.window);
    }
  }

  lemma {:induction false} NoWaits(end: nat)
    ensures !WaitsBefore([], end)
  {
  }

  /**
   Over a whole run, the window counts as limited by the consumer exactly when the
   consumer was waited for after the mark and before the window closed.
   */
  lemma {:induction false} ConsumerLimitedIff(c: Config, events: seq<Event>)
    requires Monotone(events)
    ensures var after := FromMark(c, events);
            RunAll(c, events).consumerLimited
            <==> after != [] && WaitsBefore(after[1..], after[0].at + c.window)
  {
    hide RunFrom, WaitsBefore, FromMark;
    var after := FromMark(c, events);
    SettlingRun(c, INITIAL, events);
    FromMarkMonotone(c, events);
    if after != [] {
      MonotoneTail(after);
      var discarded := Capped(BytesThroughMark(c, events));
      CountingWaits(c, INITIAL.(mark := Some(after[0].at), discarded := discarded), after[1..]);
    }
  }
}
