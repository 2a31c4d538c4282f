/** A metric group at run time: one register read per cycle, the packed
    buffer, the double-sample filter, the per-metric values sent to metricq,
    and the polling loop with its deadlines. The device read and the clock
    are inputs; the float decode of a value is left to the sink, so a metric
    sends the 32-bit big-endian word it would decode. */
module MetricGroups {
  import opened Common
  import opened Registers
  import opened Construction
  import opened Scheduler
  import opened Dedup

  /** One value handed to metricq: the metric, the cycle's timestamp and the
      raw 32-bit word at the metric's window. */
  datatype Send = Send(metric: string, timestamp: int, word: int)

  /** `Metric.update` for every metric of the group, in order. */
  function Sends(g: Group, timestamp: int, buffer: seq<Byte>): (r: seq<Send>)
    requires WellFormed(g) && |buffer| == BYTES_PER_REGISTER * g.numRegisters
    ensures |r| == |g.metrics|
    ensures forall i :: 0 <= i < |r| ==> r[i].metric == g.metrics[i].name && r[i].timestamp == timestamp
  {
    WindowsInsideBuffer(g);
    seq(|g.metrics|, i requires 0 <= i < |g.metrics| =>
      Send(g.metrics[i].name, timestamp, Word(Window(buffer, Offset(g.metrics[i], g.baseAddress)))))
  }

  /** Each metric sends the two registers at its own address, high register first. */
  lemma SendsDecodeRegisters(g: Group, timestamp: int, regs: seq<Register>)
    requires WellFormed(g) && |regs| == g.numRegisters
    ensures |Pack(regs)| == BYTES_PER_REGISTER * g.numRegisters
    ensures forall i :: 0 <= i < |g.metrics| ==>
      var k := g.metrics[i].address - g.baseAddress;
      0 <= k && k + REGISTERS_PER_VALUE <= |regs|
      && Sends(g, timestamp, Pack(regs))[i].word == (regs[k] as int) * 0x1_0000 + regs[k + 1]
  {
    WindowsInsideBuffer(g);
    forall i | 0 <= i < |g.metrics|
      ensures var k := g.metrics[i].address - g.baseAddress;
        0 <= k && k + REGISTERS_PER_VALUE <= |regs|
        && Sends(g, timestamp, Pack(regs))[i].word == (regs[k] as int) * 0x1_0000 + regs[k + 1]
    {
      WindowOfPack(regs, g.metrics[i].address - g.baseAddress);
    }
  }

  /** What the environment supplies in one cycle: the timestamp taken before
      the read, the registers the device returned, the clock after the
      update, and whether the stop future was done when the loop waited. */
  datatype Cycle = Cycle(timestamp: int, registers: seq<Register>, now: int, stop: bool)

  function Buffers(cycles: seq<Cycle>): (bs: seq<seq<Byte>>)
    ensures |bs| == |cycles|
    ensures forall i :: 0 <= i < |cycles| ==> bs[i] == Pack(cycles[i].registers)
  {
    seq(|cycles|, i requires 0 <= i < |cycles| => Pack(cycles[i].registers))
  }

  function Nows(cycles: seq<Cycle>): (ns: seq<int>)
    ensures |ns| == |cycles|
    ensures forall i :: 0 <= i < |cycles| ==> ns[i] == cycles[i].now
  {
    seq(|cycles|, i requires 0 <= i < |cycles| => cycles[i].now)
  }

  /** What one cycle sends: every metric, unless the filter dropped it. */
  function CycleSends(g: Group, c: Cycle, publish: bool): seq<Send>
    requires WellFormed(g) && |c.registers| == g.numRegisters
  {
    if publish then Sends(g, c.timestamp, Pack(c.registers)) else []
  }

  /** The state of the polling loop after some cycles: the deadline computed
      in each cycle, what each cycle sent, and the filter's memory. */
  datatype Outcome = Outcome(deadlines: seq<int>, sent: seq<seq<Send>>, memory: Option<seq<Byte>>)

  /** Every cycle read exactly the group's registers. */
  predicate ReadsComplete(g: Group, cycles: seq<Cycle>) {
    forall i :: 0 <= i < |cycles| ==> |cycles[i].registers| == g.numRegisters
  }

  /** The polling loop run over `cycles` from the clock reading `start` and
      the filter memory `initial`, one cycle at a time. */
  function Run(g: Group, initial: Option<seq<Byte>>, start: int, cycles: seq<Cycle>): (o: Outcome)
    requires WellFormed(g) && g.interval > 0 && ReadsComplete(g, cycles)
    ensures |o.deadlines| == |o.sent| == |cycles|
  {
    if cycles == [] then Outcome([], [], initial)
    else
      var o := Run(g, initial, start, cycles[..|cycles| - 1]);
      var c := cycles[|cycles| - 1];
      var s := SamplingInterval(g.interval, g.doubleSample);
      var last := if o.deadlines == [] then FirstDeadline(start, s) else o.deadlines[|o.deadlines| - 1];
      var step := DedupStep(o.memory, g.doubleSample, Pack(c.registers));
      Outcome(o.deadlines + [NextDeadline(last, c.now, s)], o.sent + [CycleSends(g, c, step.publish)], step.memory)
  }

  /** Extending a run by one cycle appends that cycle's filter decision and
      leaves the earlier ones as they were. */
  lemma {:induction false} FilterStep(initial: Option<seq<Byte>>, doubleSample: bool, cycles: seq<Cycle>, i: nat)
    requires i < |cycles|
    ensures var before := MemoryAfter(initial, doubleSample, Buffers(cycles[..i]));
      var step := DedupStep(before, doubleSample, Pack(cycles[i].registers));
      && Publishes(initial, doubleSample, Buffers(cycles[..i + 1]))
           == Publishes(initial, doubleSample, Buffers(cycles[..i])) + [step.publish]
      && MemoryAfter(initial, doubleSample, Buffers(cycles[..i + 1])) == step.memory
  {
    assert Buffers(cycles[..i + 1])[..i] == Buffers(cycles[..i]);
  }

  /** Extending a run by one cycle appends that cycle's deadline. */
  lemma {:induction false} DeadlineStep(start: int, s: int, cycles: seq<Cycle>, i: nat)
    requires s > 0 && i < |cycles|
    ensures var ds := Deadlines(start, Nows(cycles[..i]), s);
      var last := if i == 0 then FirstDeadline(start, s) else ds[i - 1];
      Deadlines(start, Nows(cycles[..i + 1]), s) == ds + [NextDeadline(last, cycles[i].now, s)]
  {
    assert Nows(cycles[..i + 1])[..i] == Nows(cycles[..i]);
  }

  /** The loop's deadlines are those of the scheduler. */
  lemma {:induction false} RunDeadlines(g: Group, initial: Option<seq<Byte>>, start: int, cycles: seq<Cycle>)
    requires WellFormed(g) && g.interval > 0 && ReadsComplete(g, cycles)
    ensures Run(g, initial, start, cycles).deadlines
      == Deadlines(start, Nows(cycles), SamplingInterval(g.interval, g.doubleSample))
  {
    if cycles != [] {
      var n := |cycles| - 1;
      assert cycles[..n + 1] == cycles;
      RunStep(g, initial, start, cycles, n);
      RunDeadlines(g, initial, start, cycles[..n]);
      DeadlineStep(start, SamplingInterval(g.interval, g.doubleSample), cycles, n);
    }
  }

  /** The loop's memory is that of the double-sample filter. */
  lemma {:induction false} RunMemory(g: Group, initial: Option<seq<Byte>>, start: int, cycles: seq<Cycle>)
    requires WellFormed(g) && g.interval > 0 && ReadsComplete(g, cycles)
    ensures Run(g, initial, start, cycles).memory == MemoryAfter(initial, g.doubleSample, Buffers(cycles))
  {
    if cycles != [] {
      var n := |cycles| - 1;
      assert cycles[..n + 1] == cycles;
      RunStep(g, initial, start, cycles, n);
      RunMemory(g, initial, start, cycles[..n]);
      FilterStep(initial, g.doubleSample, cycles, n);
    }
  }

  /** Every cycle sent what the filter decisions `ps` let through. */
  predicate SentAgree(g: Group, cycles: seq<Cycle>, sent: seq<seq<Send>>, ps: seq<bool>)
    requires WellFormed(g) && ReadsComplete(g, cycles) && |sent| == |ps| == |cycles|
  {
    forall i :: 0 <= i < |sent| ==> sent[i] == CycleSends(g, cycles[i], ps[i])
  }

  lemma {:induction false} SentStep(g: Group, cycles: seq<Cycle>, sent: seq<seq<Send>>, ps: seq<bool>, p: bool)
    requires WellFormed(g) && ReadsComplete(g, cycles) && |sent| == |ps| == |cycles| - 1
    requires ReadsComplete(g, cycles[..|sent|]) && SentAgree(g, cycles[..|sent|], sent, ps)
    ensures SentAgree(g, cycles, sent + [CycleSends(g, cycles[|sent|], p)], ps + [p])
  {
    var n := |sent|;
    assert forall i :: 0 <= i < n ==> cycles[..n][i] == cycles[i];
  }

  /** Each cycle of the loop sends every metric exactly when the double-sample
      filter publishes that cycle, and nothing otherwise. */
  lemma {:induction false} RunSends(g: Group, initial: Option<seq<Byte>>, start: int, cycles: seq<Cycle>)
    requires WellFormed(g) && g.interval > 0 && ReadsComplete(g, cycles)
    ensures SentAgree(g, cycles, Run(g, initial, start, cycles).sent, Publishes(initial, g.doubleSample, Buffers(cycles)))
  {
    if cycles != [] {
      var n := |cycles| - 1;
      var init := cycles[..n];
      assert cycles[..n + 1] == cycles;
      RunStep(g, initial, start, cycles, n);
      RunSends(g, initial, start, init);
      RunMemory(g, initial, start, init);
      FilterStep(initial, g.doubleSample, cycles, n);
      var o := Run(g, initial, start, init);
      var ps := Publishes(initial, g.doubleSample, Buffers(init));
      var p := DedupStep(o.memory, g.doubleSample, Pack(cycles[n].registers)).publish;
      SentStep(g, cycles, o.sent, ps, p);
    }
  }

  /** One more cycle of the loop extends the run by that cycle. */
  lemma RunStep(g: Group, initial: Option<seq<Byte>>, start: int, cycles: seq<Cycle>, n: nat)
    requires WellFormed(g) && g.interval > 0 && n < |cycles| && ReadsComplete(g, cycles[..n + 1])
    ensures ReadsComplete(g, cycles[..n])
    ensures var o := Run(g, initial, start, cycles[..n]);
      var s := SamplingInterval(g.interval, g.doubleSample);
      var last := if n == 0 then FirstDeadline(start, s) else o.deadlines[n - 1];
      var step := DedupStep(o.memory, g.doubleSample, Pack(cycles[n].registers));
      Run(g, initial, start, cycles[..n + 1])
        == Outcome(o.deadlines + [NextDeadline(last, cycles[n].now, s)],
                   o.sent + [CycleSends(g, cycles[n], step.publish)], step.memory)
  {
    assert cycles[..n + 1][..n] == cycles[..n];
  }

  /** The state of `task` after the cycles `cycles[..|sent|]`: the outcome
      so far is `Run` over them, `deadline` is the current deadline, no
      earlier cycle saw the stop future done, `stopped` says the last one
      did, and `failed` says the next read came back short. */
  ghost predicate Tracks(g: Group, initial: Option<seq<Byte>>, start: int, cycles: seq<Cycle>,
                         deadlines: seq<int>, sent: seq<seq<Send>>, memory: Option<seq<Byte>>,
                         deadline: int, stopped: bool, failed: bool)
    requires WellFormed(g) && g.interval > 0
  {
    var i := |sent|;
    && i <= |cycles| && |deadlines| == i && ReadsComplete(g, cycles[..i])
    && Outcome(deadlines, sent, memory) == Run(g, initial, start, cycles[..i])
    && deadline == (if i == 0 then FirstDeadline(start, SamplingInterval(g.interval, g.doubleSample))
                    else deadlines[i - 1])
    && (forall j :: 0 <= j < i - 1 ==> !cycles[j].stop)
    && (!stopped && i > 0 ==> !cycles[i - 1].stop)
    && (stopped ==> !failed && i > 0 && cycles[i - 1].stop)
    && (failed ==> i < |cycles| && |cycles[i].registers| != g.numRegisters)
  }

  /** A complete read extends the tracked state by one cycle. */
  lemma TracksStep(g: Group, initial: Option<seq<Byte>>, start: int, cycles: seq<Cycle>,
                   deadlines: seq<int>, sent: seq<seq<Send>>, memory: Option<seq<Byte>>, deadline: int)
    requires WellFormed(g) && g.interval > 0
    requires |sent| < |cycles| && Tracks(g, initial, start, cycles, deadlines, sent, memory, deadline, false, false)
    requires |cycles[|sent|].registers| == g.numRegisters
    ensures var c := cycles[|sent|];
      var next := NextDeadline(deadline, c.now, SamplingInterval(g.interval, g.doubleSample));
      var step := DedupStep(memory, g.doubleSample, Pack(c.registers));
      Tracks(g, initial, start, cycles, deadlines + [next], sent + [CycleSends(g, c, step.publish)],
             step.memory, next, c.stop, false)
  {
    var i := |sent|;
    assert ReadsComplete(g, cycles[..i + 1]) by {
      assert forall j :: 0 <= j < i ==> cycles[..i + 1][j] == cycles[..i][j];
    }
    RunStep(g, initial, start, cycles, i);
  }

  class MetricGroup {
    /** The group as built from its configuration. */
    const group: Group
    /** `_previous_buffer`: the last published buffer of a double-sampling group. */
    var previousBuffer: Option<seq<Byte>>

    constructor(g: Group)
      requires WellFormed(g)
      ensures group == g && previousBuffer == None
    {
      group := g;
      previousBuffer := None;
    }

    /** `_update`: the read must return exactly the group's registers; the
        buffer then passes the double-sample filter and, unless dropped,
        every metric sends its value. */
    method Update(timestamp: int, raw: seq<Register>) returns (r: Result<seq<Send>>)
      requires WellFormed(group)
      modifies this
      ensures r.Err? <==> |raw| != group.numRegisters
      ensures |raw| != group.numRegisters ==>
        r == Err(RegisterCountMismatch) && previousBuffer == old(previousBuffer)
      ensures |raw| == group.numRegisters ==>
        var step := DedupStep(old(previousBuffer), group.doubleSample, Pack(raw));
        previousBuffer == step.memory
        && r == Ok(if step.publish then Sends(group, timestamp, Pack(raw)) else [])
    {
      if |raw| != group.numRegisters {
        return Err(RegisterCountMismatch);
      }
      var buffer := Pack(raw);
      if group.doubleSample {
        if previousBuffer.Some? && previousBuffer.value == buffer {
          previousBuffer := None;
          return Ok([]);
        }
        previousBuffer := Some(buffer);
      }
      r := Ok(Sends(group, timestamp, buffer));
    }

    /** One pass of the loop body: update, then advance the deadline and
        check the stop future. A failed update changes nothing. */
    method Step(ghost initial: Option<seq<Byte>>, start: int, cycles: seq<Cycle>,
                deadlines: seq<int>, sent: seq<seq<Send>>, deadline: int)
      returns (deadlines': seq<int>, sent': seq<seq<Send>>, deadline': int, stopped: bool, failed: bool)
      requires WellFormed(group) && group.interval > 0
      requires |sent| < |cycles| && Tracks(group, initial, start, cycles, deadlines, sent, previousBuffer, deadline, false, false)
      modifies this
      ensures Tracks(group, initial, start, cycles, deadlines', sent', previousBuffer, deadline', stopped, failed)
      ensures failed ==> |sent'| == |sent|
      ensures !failed ==> |sent'| == |sent| + 1
    {
      var i := |sent|;
      var cycle := cycles[i];
      var r := Update(cycle.timestamp, cycle.registers);
      if r.Err? {
        return deadlines, sent, deadline, false, true;
      }
      TracksStep(group, initial, start, cycles, deadlines, sent, old(previousBuffer), deadline);
      var next := NextDeadline(deadline, cycle.now, SamplingInterval(group.interval, group.doubleSample));
      return deadlines + [next], sent + [r.value], next, cycle.stop, false;
    }

    /** `task`: align the first deadline to the clock `start`, then per cycle
        update, advance the deadline, and stop once the stop future is done.
        A failed update ends the loop (`failed`); so does the end of the
        supplied cycles. The outcome is `Run` over the cycles performed. */
    method Task(start: int, cycles: seq<Cycle>) returns (deadlines: seq<int>, sent: seq<seq<Send>>, failed: bool)
      requires WellFormed(group) && group.interval > 0
      modifies this
      ensures |sent| <= |cycles| && ReadsComplete(group, cycles[..|sent|])
      ensures Outcome(deadlines, sent, previousBuffer) == Run(group, old(previousBuffer), start, cycles[..|sent|])
      ensures forall i :: 0 <= i < |sent| - 1 ==> !cycles[i].stop
      ensures failed ==> |sent| < |cycles| && |cycles[|sent|].registers| != group.numRegisters
      ensures failed && |sent| > 0 ==> !cycles[|sent| - 1].stop
      ensures !failed && |sent| < |cycles| ==> |sent| > 0 && cycles[|sent| - 1].stop
    {
      var deadline := FirstDeadline(start, SamplingInterval(group.interval, group.doubleSample));
      ghost var initial := previousBuffer;
      deadlines, sent, failed := [], [], false;
      var stopped := false;
      assert cycles[..0] == [];
      assert Run(group, initial, start, cycles[..0]) == Outcome([], [], initial);
      while |sent| < |cycles| && !stopped && !failed
        invariant Tracks(group, initial, start, cycles, deadlines, sent, previousBuffer, deadline, stopped, failed)
        decreases |cycles| - |sent|, if failed then 0 else 1
      {
        deadlines, sent, deadline, stopped, failed := Step(initial, start, cycles, deadlines, sent, deadline);
      }
    }
  }
}
