/**
 The transmit sink of src/http_sink.rs: batching, burst times, and the bounded channel
 to a sender task that may fail, time out or die at any moment.
 */
module TxSink {
  import opened Results
  import opened BurstSchedule

  datatype Complex = Complex(re: real, im: real)

  datatype Batch = Batch(samples: seq<Complex>, startTime: real, endTime: real)

  const CHANNEL_CAPACITY: nat := 16

  // ---------------------------------------------------------------- batches

  /** The samples of batches, one after another. */
  function Flatten(batches: seq<Batch>): seq<Complex> {
    if batches == [] then [] else Flatten(batches[..|batches| - 1]) + batches[|batches| - 1].samples
  }

  function SampleCount(batches: seq<Batch>): nat {
    if batches == [] then 0 else SampleCount(batches[..|batches| - 1]) + |batches[|batches| - 1].samples|
  }

  lemma {:induction false} SampleCountAppend(a: seq<Batch>, b: seq<Batch>)
    ensures SampleCount(a + b) == SampleCount(a) + SampleCount(b)
    decreases |b|
  {
    if b == [] {
      assert a + b == a;
    } else {
      assert (a + b)[..|a + b| - 1] == a + b[..|b| - 1];
      SampleCountAppend(a, b[..|b| - 1]);
    }
  }

  lemma {:induction false} SampleCountOne(b: Batch)
    ensures SampleCount([b]) == |b.samples| && SampleCount([]) == 0
  {
    assert [b][..0] == [];
  }

  lemma {:induction false} FlattenOneMore(batches: seq<Batch>, b: Batch)
    ensures Flatten(batches + [b]) == Flatten(batches) + b.samples
  {
    assert (batches + [b])[..|batches|] == batches;
  }

  lemma {:induction false} FlattenLength(batches: seq<Batch>)
    ensures |Flatten(batches)| == SampleCount(batches)
  {
    if batches != [] {
      FlattenLength(batches[..|batches| - 1]);
    }
  }

  predicate AllFull(batches: seq<Batch>, size: nat) {
    forall i | 0 <= i < |batches| :: |batches[i].samples| == size
  }

  lemma {:induction false} FullCount(batches: seq<Batch>, size: nat)
    requires AllFull(batches, size)
    ensures |Flatten(batches)| == |batches| * size
  {
    if batches != [] {
      FullCount(batches[..|batches| - 1], size);
      assert |batches| * size == (|batches| - 1) * size + size;
    }
  }

  /** `part` is block `k` of `whole` cut into blocks of `size`. */
  predicate IsBlock(part: seq<Complex>, whole: seq<Complex>, size: nat, k: nat) {
    0 <= k * size && k * size + size <= |whole| && part == whole[k * size..k * size + size]
  }

  lemma {:induction false} IsBlockOfLonger(
    part: seq<Complex>, whole: seq<Complex>, more: seq<Complex>, size: nat, k: nat)
    requires IsBlock(part, whole, size, k)
    ensures IsBlock(part, whole + more, size, k)
  {
    var at := k * size;
    assert (whole + more)[at..at + size] == whole[at..at + size];
  }

  /** Full batches are the consecutive blocks of the sample stream they carry. */
  lemma {:induction false} FullBatchesAreBlocks(batches: seq<Batch>, size: nat, k: nat)
    requires AllFull(batches, size) && k < |batches|
    ensures IsBlock(batches[k].samples, Flatten(batches), size, k)
    decreases |batches|
  {
    var init, last := batches[..|batches| - 1], batches[|batches| - 1];
    FullCount(init, size);
    if k < |init| {
      FullBatchesAreBlocks(init, size, k);
      IsBlockOfLonger(batches[k].samples, Flatten(init), last.samples, size, k);
    }
  }

  // ---------------------------------------------------------------- the channel and the sender task

  datatype Outcome = Pushed | Failed | TimedOut

  datatype Settled = Settled(batch: Batch, outcome: Outcome)

  function BatchesOf(settled: seq<Settled>): (batches: seq<Batch>)
    ensures |batches| == |settled|
  {
    seq(|settled|, i requires 0 <= i < |settled| => settled[i].batch)
  }

  function InFlightBatches(inFlight: Option<Batch>): seq<Batch> {
    match inFlight case None => [] case Some(b) => [b]
  }

  class Channel {
    var queue: seq<Batch>
    var inFlight: Option<Batch>
    var alive: bool
    var droppedSamples: nat
    /** Samples the device has accepted. */
    ghost var pushedSamples: nat
    /** Samples that were queued or in flight when the task died; nobody counts them. */
    ghost var lostSamples: nat
    /** Batches whose push has ended, in order. */
    ghost var settled: seq<Settled>
    /** Every batch handed to `Send`, in order. */
    ghost var handed: seq<Batch>

    ghost predicate Valid()
      reads this
    {
      && |queue| <= CHANNEL_CAPACITY
      && (alive ==> lostSamples == 0 && BatchesOf(settled) + InFlightBatches(inFlight) + queue == handed)
      && (!alive ==> queue == [] && inFlight == None)
      && SampleCount(handed)
         == pushedSamples + droppedSamples + lostSamples + SampleCount(InFlightBatches(inFlight)) + SampleCount(queue)
    }

    constructor ()
      ensures Valid() && alive && handed == [] && droppedSamples == 0
    {
      queue, inFlight, alive, droppedSamples := [], None, true, 0;
      pushedSamples, lostSamples, settled, handed := 0, 0, [], [];
    }

    /** The task takes the oldest queued batch and starts its push. */
    method Receive()
      requires Valid() && alive && inFlight.None? && queue != []
      modifies this
      ensures Valid() && alive && handed == old(handed) && settled == old(settled)
      ensures inFlight == Some(old(queue)[0]) && queue == old(queue)[1..]
      ensures pushedSamples == old(pushedSamples) && droppedSamples == old(droppedSamples)
    {
      var b := queue[0];
      SampleCountOne(b);
      SampleCountAppend([b], queue[1..]);
      assert [b] + queue[1..] == queue;
      assert BatchesOf(settled) + [] + queue == BatchesOf(settled) + [b] + queue[1..];
      inFlight, queue := Some(b), queue[1..];
    }

    /** The push in flight ends; unless it succeeded its samples are counted as dropped. */
    method Complete(outcome: Outcome)
      requires Valid() && alive && inFlight.Some?
      modifies this
      ensures Valid() && alive && handed == old(handed) && queue == old(queue) && inFlight == None
      ensures settled == old(settled) + [Settled(old(inFlight).value, outcome)]
      ensures var n := |old(inFlight).value.samples|;
              && pushedSamples == old(pushedSamples) + (if outcome.Pushed? then n else 0)
              && droppedSamples == old(droppedSamples) + (if outcome.Pushed? then 0 else n)
    {
      var b := inFlight.value;
      SampleCountOne(b);
      BatchesOfOneMore(settled, b, outcome);
      settled := settled + [Settled(b, outcome)];
      if outcome.Pushed? {
        pushedSamples := pushedSamples + |b.samples|;
      } else {
        droppedSamples := droppedSamples + |b.samples|;
      }
      inFlight := None;
      assert BatchesOf(settled) + [] + queue == handed;
    }

    /** The task panics or is aborted: the channel closes and what it held is gone, uncounted. */
    method Die()
      requires Valid() && alive
      modifies this
      ensures Valid() && !alive && handed == old(handed)
      ensures pushedSamples == old(pushedSamples) && droppedSamples == old(droppedSamples)
      ensures lostSamples
              == old(lostSamples) + SampleCount(InFlightBatches(old(inFlight))) + SampleCount(old(queue))
    {
      lostSamples := lostSamples + SampleCount(InFlightBatches(inFlight)) + SampleCount(queue);
      queue, inFlight, alive := [], None, false;
    }

    /** One step of the task, whichever the scheduler and the network choose. */
    method SenderStep()
      requires Valid() && alive && (inFlight.Some? || queue != [])
      modifies this
      ensures Valid() && handed == old(handed) && |queue| <= |old(queue)|
      ensures alive ==> Work() < old(Work())
    {
      var dies: bool := *;
      if dies {
        Die();
      } else if inFlight.Some? {
        var outcome: Outcome := *;
        Complete(outcome);
      } else {
        Receive();
      }
    }

    /** Steps the task can take before the channel is empty. */
    function Work(): nat
      reads this
    {
      2 * |queue| + (if inFlight.Some? then 1 else 0)
    }

    /** Any number of steps of the task between two steps of the sink. */
    method SenderRuns()
      requires Valid()
      modifies this
      ensures Valid() && handed == old(handed) && |queue| <= |old(queue)|
    {
      var steps: nat :| steps >= 0;
      for i := 0 to steps
        invariant Valid() && handed == old(handed) && |queue| <= |old(queue)|
      {
        if alive && (inFlight.Some? || queue != []) {
          SenderStep();
        }
      }
    }

    /** Waits for room, then queues the batch; fails, without queueing, once the task is gone. */
    method Send(b: Batch) returns (ok: bool)
      requires Valid()
      modifies this
      ensures Valid() && ok == alive && |queue| <= 16
      ensures ok ==> handed == old(handed) + [b] && queue != [] && queue[|queue| - 1] == b
      ensures !ok ==> handed == old(handed)
    {
      SenderRuns();
      while alive && |queue| >= CHANNEL_CAPACITY
        invariant Valid() && handed == old(handed)
        decreases if alive then Work() else 0, alive
      {
        SenderStep();
      }
      ok := alive;
      if alive {
        Enqueue(b);
      }
    }

    method Enqueue(b: Batch)
      requires Valid() && alive && |queue| < CHANNEL_CAPACITY
      modifies this
      ensures Valid() && alive && handed == old(handed) + [b] && queue == old(queue) + [b]
    {
      hide SampleCount, BatchesOf;
      SampleCountOne(b);
      SampleCountAppend(handed, [b]);
      SampleCountAppend(queue, [b]);
      assert BatchesOf(settled) + InFlightBatches(inFlight) + (queue + [b])
          == BatchesOf(settled) + InFlightBatches(inFlight) + queue + [b];
      handed, queue := handed + [b], queue + [b];
    }

    /** After a failed send the sink counts the batch as dropped. */
    method CountRefused(b: Batch)
      requires Valid() && !alive
      modifies this
      ensures Valid() && !alive && handed == old(handed) + [b]
      ensures droppedSamples == old(droppedSamples) + |b.samples|
    {
      hide SampleCount, BatchesOf;
      SampleCountOne(b);
      SampleCountAppend(handed, [b]);
      handed, droppedSamples := handed + [b], droppedSamples + |b.samples|;
    }
  }

  lemma {:induction false} BatchesOfOneMore(settled: seq<Settled>, b: Batch, outcome: Outcome)
    ensures BatchesOf(settled + [Settled(b, outcome)]) == BatchesOf(settled) + [b]
  {
  }

  // ---------------------------------------------------------------- the sink

  class HttpSink {
    const sampleRateHz: real
    const bufferSize: nat
    const streamingDelay: real
    const channel: Channel
    var sampleBuffer: seq<Complex>
    var lastTransmissionEndTime: real
    var ioFinished: bool
    /** All input taken so far. */
    ghost var accepted: seq<Complex>
    /** Wall-clock reading and size of every batch submitted. */
    ghost var submissions: seq<Submission>
    ghost const initialEndTime: real
    /** Which batches were submitted to empty the buffer at the end of the input. */
    ghost var flushes: set<int>

    /** What every step keeps. */
    ghost predicate Consistent()
      reads this, channel
    {
      && sampleRateHz > 0.0 && bufferSize >= 1
      && channel.Valid()
      && Flatten(channel.handed) + sampleBuffer == accepted
      && lastTransmissionEndTime == NextFree(initialEndTime, streamingDelay, sampleRateHz, submissions)
      && |submissions| == |channel.handed|
      && Timed(channel.handed)
    }

    /** Every batch handed over carries the times of the schedule. */
    ghost predicate Timed(handed: seq<Batch>)
      reads this
    {
      sampleRateHz > 0.0 && |handed| <= |submissions|
      && forall k | 0 <= k < |handed| ::
           && |handed[k].samples| == submissions[k].count
           && handed[k].startTime == StartTime(initialEndTime, streamingDelay, sampleRateHz, submissions, k)
           && handed[k].endTime == handed[k].startTime + submissions[k].count as real / sampleRateHz
    }

    /** Between calls: the buffer is short of a batch, and of the batches only those flushed may be. */
    ghost predicate Valid()
      reads this, channel
    {
      && Consistent()
      && |sampleBuffer| < bufferSize
      && FullUnlessFlushed(channel.handed, bufferSize, flushes)
      && (!ioFinished ==> flushes == {})
    }

    constructor (sampleRateHz: real, bufferSize: nat, streamingDelay: real, now: real)
      requires sampleRateHz > 0.0
      ensures Valid() && fresh(channel) && accepted == [] && !ioFinished && submissions == []
      ensures this.bufferSize == (if bufferSize < 1 then 1 else bufferSize)
      ensures this.sampleRateHz == sampleRateHz && this.streamingDelay == streamingDelay
      ensures initialEndTime == now == lastTransmissionEndTime
      ensures sampleBuffer == [] && channel.handed == [] && channel.alive && channel.droppedSamples == 0
    {
      this.sampleRateHz, this.streamingDelay := sampleRateHz, streamingDelay;
      this.bufferSize := if bufferSize < 1 then 1 else bufferSize;
      channel := new Channel();
      sampleBuffer, lastTransmissionEndTime, ioFinished := [], now, false;
      accepted, submissions, initialEndTime, flushes := [], [], now, {};
    }

    method PushBatch()
      requires Consistent()
      modifies this, channel
      ensures Consistent() && ioFinished == old(ioFinished) && accepted == old(accepted) && flushes == old(flushes)
      ensures old(sampleBuffer) == [] ==> sampleBuffer == [] && channel.handed == old(channel.handed)
      ensures old(sampleBuffer) != [] ==>
                && sampleBuffer == []
                && |channel.handed| == |old(channel.handed)| + 1
                && channel.handed[..|old(channel.handed)|] == old(channel.handed)
                && channel.handed[|old(channel.handed)|].samples == old(sampleBuffer)
    {
      hide NextFree, StartTime, Flatten, SampleCount;
      if sampleBuffer == [] {
        return;
      }
      var numComplex := |sampleBuffer|;
      var now: real := *;
      var desiredStart := now + streamingDelay;
      var startTime := MaxReal(desiredStart, lastTransmissionEndTime);
      var duration := numComplex as real / sampleRateHz;
      var endTime := startTime + duration;
      ghost var before := submissions;
      ScheduleStep(initialEndTime, streamingDelay, sampleRateHz, submissions, Submission(now, numComplex));
      lastTransmissionEndTime := endTime + 1.0 / sampleRateHz;
      var batch := Batch(sampleBuffer, startTime, endTime);
      submissions := submissions + [Submission(now, numComplex)];
      assert Timed(channel.handed) by {
        EarlierStarts(initialEndTime, streamingDelay, sampleRateHz, before, Submission(now, numComplex));
      }
      FlattenOneMore(channel.handed, batch);
      var sent := channel.Send(batch);
      if !sent {
        channel.CountRefused(batch);
      }
      sampleBuffer := [];
      assert Flatten(channel.handed) + [] == Flatten(channel.handed);
    }

    /** One call by the runtime with the samples available and whether the upstream has finished. */
    method Work(input: seq<Complex>, inputFinished: bool)
      requires Valid()
      modifies this, channel
      ensures Valid()
      ensures accepted == old(accepted) + input
      ensures ioFinished == (old(ioFinished) || inputFinished)
      ensures if inputFinished then sampleBuffer == [] else flushes == old(flushes)
      ensures !old(ioFinished) ==> AllFullButLast(channel.handed, bufferSize)
      ensures input == [] && (old(sampleBuffer) == [] || !inputFinished) ==> channel.handed == old(channel.handed)
    {
      hide Flatten, SampleCount, NextFree, StartTime, Consistent;
      if input == [] {
        if inputFinished {
          Flush();
        }
        assert old(accepted) + input == old(accepted);
        return;
      }
      var consumed := 0;
      while consumed < |input|
        invariant consumed <= |input| && ioFinished == old(ioFinished) && Valid() && flushes == old(flushes)
        invariant accepted == old(accepted) + input[..consumed]
        decreases |input| - consumed
      {
        var availableSpace := bufferSize - |sampleBuffer|;
        var toTake := if availableSpace < |input| - consumed then availableSpace else |input| - consumed;
        TakeInput(input[consumed..consumed + toTake]);
        assert input[..consumed + toTake] == input[..consumed] + input[consumed..consumed + toTake];
        consumed := consumed + toTake;
        if |sampleBuffer| >= bufferSize {
          PushBatch();
        }
      }
      assert input[..consumed] == input;
      if inputFinished {
        Flush();
      }
    }

    /** Submits what is left in the buffer and finishes. */
    method Flush()
      requires Valid()
      modifies this, channel
      ensures Valid() && ioFinished && sampleBuffer == [] && accepted == old(accepted)
      ensures old(sampleBuffer) == [] ==> channel.handed == old(channel.handed) && flushes == old(flushes)
      ensures !old(ioFinished) ==> AllFullButLast(channel.handed, bufferSize)
    {
      hide Flatten, SampleCount, NextFree, StartTime, Consistent;
      ghost var flushed: set<int> := if sampleBuffer == [] then {} else {|channel.handed|};
      PushBatch();
      MarkFinished(flushed);
    }

    method MarkFinished(ghost flushed: set<int>)
      requires Consistent()
      modifies `ioFinished, `flushes
      ensures Consistent() && ioFinished && flushes == old(flushes) + flushed
    {
      ioFinished, flushes := true, flushes + flushed;
    }

    /** Moves input into the buffer. */
    method TakeInput(part: seq<Complex>)
      requires Consistent()
      modifies this
      ensures Consistent() && ioFinished == old(ioFinished) && flushes == old(flushes)
      ensures sampleBuffer == old(sampleBuffer) + part && accepted == old(accepted) + part
      ensures submissions == old(submissions)
    {
      hide NextFree, StartTime, Flatten, SampleCount;
      assert Flatten(channel.handed) + (sampleBuffer + part) == accepted + part;
      sampleBuffer := sampleBuffer + part;
      accepted := accepted + part;
    }
  }

  predicate AllFullButLast(batches: seq<Batch>, size: nat) {
    && (forall i | 0 <= i < |batches| - 1 :: |batches[i].samples| == size)
    && (batches != [] ==> 0 < |batches[|batches| - 1].samples| <= size)
  }

  predicate FullUnlessFlushed(batches: seq<Batch>, size: nat, flushes: set<int>) {
    forall i | 0 <= i < |batches| :: 0 < |batches[i].samples| <= size && (|batches[i].samples| == size || i in flushes)
  }

  // ---------------------------------------------------------------- laws of the whole sink

  /**
   Conservation: every accepted sample has been pushed, dropped, queued, put in flight or
   buffered, or was lost when the task died; while the task lives none is lost.
   */
  lemma {:induction false} Conservation(sink: HttpSink)
    requires sink.Consistent()
    ensures |sink.accepted|
            == sink.channel.pushedSamples + sink.channel.droppedSamples + sink.channel.lostSamples
               + SampleCount(InFlightBatches(sink.channel.inFlight)) + SampleCount(sink.channel.queue)
               + |sink.sampleBuffer|
    ensures sink.channel.alive ==> sink.channel.lostSamples == 0
  {
    FlattenLength(sink.channel.handed);
  }

  /**
   While the task lives, what has settled, then what is in flight, queued and buffered,
   is the input in order; so the device is offered a prefix of it.
   */
  lemma {:induction false} Fifo(sink: HttpSink)
    requires sink.Consistent() && sink.channel.alive
    ensures Flatten(BatchesOf(sink.channel.settled))
            + Flatten(InFlightBatches(sink.channel.inFlight) + sink.channel.queue)
            + sink.sampleBuffer
            == sink.accepted
  {
    hide Flatten, BatchesOf;
    var settled, rest := BatchesOf(sink.channel.settled), InFlightBatches(sink.channel.inFlight) + sink.channel.queue;
    FlattenAppend(settled, rest);
    assert settled + rest == sink.channel.handed;
  }

  lemma {:induction false} FlattenAppend(a: seq<Batch>, b: seq<Batch>)
    ensures Flatten(a + b) == Flatten(a) + Flatten(b)
    decreases |b|
  {
    if b == [] {
      assert a + b == a;
    } else {
      assert (a + b)[..|a + b| - 1] == a + b[..|b| - 1];
      FlattenAppend(a, b[..|b| - 1]);
    }
  }

  /** Before the flush, batch `k` is block `k` of the input. */
  lemma {:induction false} BatchIsBlock(sink: HttpSink, k: nat)
    requires sink.Valid() && !sink.ioFinished && k < |sink.channel.handed|
    ensures IsBlock(sink.channel.handed[k].samples, sink.accepted, sink.bufferSize, k)
  {
    hide IsBlock;
    FullBatchesAreBlocks(sink.channel.handed, sink.bufferSize, k);
    var handed := sink.channel.handed;
    IsBlockOfLonger(handed[k].samples, Flatten(handed), sink.sampleBuffer, sink.bufferSize, k);
  }

  /**
   The times a batch carries: it lasts its samples' periods, and starts no earlier than
   wished for; the first starts then or at the sink's creation, the others then or one
   sample period after the end of the one before, whichever is later.
   */
  lemma {:induction false} BurstTimes(sink: HttpSink, k: nat)
    requires sink.Consistent() && k < |sink.channel.handed|
    ensures var handed, rate := sink.channel.handed, sink.sampleRateHz;
            var wish, b := sink.submissions[k].now + sink.streamingDelay, handed[k];
            var free := if k == 0 then sink.initialEndTime else handed[k - 1].endTime + 1.0 / rate;
            && b.endTime == b.startTime + |b.samples| as real / rate
            && b.startTime >= wish && b.startTime >= free
            && (b.startTime == wish || b.startTime == free)
  {
    hide StartTime;
    StartStep(sink.initialEndTime, sink.streamingDelay, sink.sampleRateHz, sink.submissions, k);
  }

  /** Bursts never overlap: at least a sample period lies between one burst's end and any later start. */
  lemma {:induction false} BurstsDisjoint(sink: HttpSink, i: nat, j: nat)
    requires sink.Consistent() && i < j < |sink.channel.handed|
    ensures sink.channel.handed[i].endTime + 1.0 / sink.sampleRateHz <= sink.channel.handed[j].startTime
  {
    StartsOrdered(sink.initialEndTime, sink.streamingDelay, sink.sampleRateHz, sink.submissions, i, j);
  }
}
