/** The double-sample filter of a metric group. A double-sampling group polls
    at twice its interval and remembers the last buffer it published; a
    buffer equal to the remembered one is a repeated sample of the same
    device update and is dropped, and the memory is cleared so that only one
    buffer is ever dropped in a row. */
module Dedup {
  import opened Common
  import opened Registers

  /** The outcome of one cycle: the new memory and whether the metrics are updated. */
  datatype Step = Step(memory: Option<seq<Byte>>, publish: bool)

  /** One cycle of `_update` after the buffer has been packed. */
  function DedupStep(previous: Option<seq<Byte>>, doubleSample: bool, buffer: seq<Byte>): (r: Step)
    ensures !doubleSample ==> r == Step(previous, true)
    ensures doubleSample ==> (r.publish <==> previous != Some(buffer))
    ensures doubleSample && r.publish ==> r.memory == Some(buffer)
    ensures doubleSample && !r.publish ==> r.memory == None
  {
    if !doubleSample then Step(previous, true)
    else if previous.Some? && previous.value == buffer then Step(None, false)
    else Step(Some(buffer), true)
  }

  /** The memory after a run of cycles over `buffers`. */
  function MemoryAfter(initial: Option<seq<Byte>>, doubleSample: bool, buffers: seq<seq<Byte>>): Option<seq<Byte>>
  {
    if buffers == [] then initial
    else
      var before := MemoryAfter(initial, doubleSample, buffers[..|buffers| - 1]);
      DedupStep(before, doubleSample, buffers[|buffers| - 1]).memory
  }

  /** Which cycles of a run over `buffers` update the metrics. */
  function Publishes(initial: Option<seq<Byte>>, doubleSample: bool, buffers: seq<seq<Byte>>): (ps: seq<bool>)
    ensures |ps| == |buffers|
  {
    if buffers == [] then []
    else
      var init := buffers[..|buffers| - 1];
      Publishes(initial, doubleSample, init)
        + [DedupStep(MemoryAfter(initial, doubleSample, init), doubleSample, buffers[|buffers| - 1]).publish]
  }

  /** Publishing cycles one by one: a prefix of the run decides the same way. */
  lemma {:induction false} PublishesPrefix(initial: Option<seq<Byte>>, doubleSample: bool, buffers: seq<seq<Byte>>, n: nat)
    requires n <= |buffers|
    ensures Publishes(initial, doubleSample, buffers[..n]) == Publishes(initial, doubleSample, buffers)[..n]
    decreases |buffers|
  {
    if n < |buffers| {
      var init := buffers[..|buffers| - 1];
      PublishesPrefix(initial, doubleSample, init, n);
      assert init[..n] == buffers[..n];
    } else {
      assert buffers[..n] == buffers;
    }
  }

  /** Without double sampling every cycle publishes and the memory is never touched. */
  lemma {:induction false} SingleSamplePublishesAll(initial: Option<seq<Byte>>, buffers: seq<seq<Byte>>)
    ensures forall i :: 0 <= i < |buffers| ==> Publishes(initial, false, buffers)[i]
    ensures MemoryAfter(initial, false, buffers) == initial
  {
    if buffers != [] {
      SingleSamplePublishesAll(initial, buffers[..|buffers| - 1]);
    }
  }

  /** With double sampling the memory always holds the last buffer if the last
      cycle published, and nothing if it was dropped. */
  lemma MemoryIsLastPublished(initial: Option<seq<Byte>>, buffers: seq<seq<Byte>>)
    requires |buffers| > 0
    ensures Publishes(initial, true, buffers)[|buffers| - 1] ==>
      MemoryAfter(initial, true, buffers) == Some(buffers[|buffers| - 1])
    ensures !Publishes(initial, true, buffers)[|buffers| - 1] ==>
      MemoryAfter(initial, true, buffers) == None
  {
  }

  /** With double sampling a cycle is dropped exactly when its buffer equals
      the buffer of the cycle before and that cycle published (the first
      cycle compares with the initial memory). In particular no two cycles in
      a row are dropped. */
  lemma {:induction false} DroppedExactlyRepeats(initial: Option<seq<Byte>>, buffers: seq<seq<Byte>>, i: nat)
    requires 0 < i < |buffers|
    ensures !Publishes(initial, true, buffers)[i] <==>
      Publishes(initial, true, buffers)[i - 1] && buffers[i] == buffers[i - 1]
  {
    var prefix := buffers[..i + 1];
    PublishesPrefix(initial, true, buffers, i + 1);
    PublishesPrefix(initial, true, buffers, i);
    var init := prefix[..i];
    assert init == buffers[..i];
    MemoryIsLastPublished(initial, init);
    assert Publishes(initial, true, prefix)[i] == Publishes(initial, true, buffers)[i];
    assert Publishes(initial, true, init)[i - 1] == Publishes(initial, true, buffers)[i - 1];
  }

  /** Three identical buffers in a row, starting from an empty memory: the
      first and the third are published, the second is dropped. */
  lemma ThreeIdenticalBuffers(b: seq<Byte>)
    ensures Publishes(None, true, [b, b, b]) == [true, false, true]
    ensures MemoryAfter(None, true, [b, b, b]) == Some(b)
  {
    assert [b, b, b][..2] == [b, b];
    assert [b, b][..1] == [b];
    assert [b][..0] == [];
    assert MemoryAfter(None, true, [b]) == Some(b);
    assert Publishes(None, true, [b]) == [true];
    assert MemoryAfter(None, true, [b, b]) == None;
    assert Publishes(None, true, [b, b]) == [true, false];
  }
}
