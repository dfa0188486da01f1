/**
 The serial writer thread: it takes the payloads queued by the bridge loop in
 FIFO order and issues one `write` per payload on the serial device. A `write`
 may take only a prefix of the buffer; the thread discards the count it
 returns, so the rest of that payload is never sent.
 */
module SerialWriter {
  import opened Bytes

  /** What one `write` of `data` puts on the line when the device takes
      `accepted` bytes. */
  function Written(data: seq<Byte>, accepted: nat): (w: seq<Byte>)
    ensures w <= data
    ensures |w| == if accepted < |data| then accepted else |data|
  {
    if accepted < |data| then data[..accepted] else data
  }

  /** What each write puts on the line, payload by payload, when the device
      accepts `accepted[i]` bytes of the `i`-th payload. */
  function Sent(queue: seq<seq<Byte>>, accepted: seq<nat>): (sent: seq<seq<Byte>>)
    requires |accepted| == |queue|
    ensures |sent| == |queue|
  {
    if |queue| == 0 then []
    else
      var k := |queue| - 1;
      Sent(queue[..k], accepted[..k]) + [Written(queue[k], accepted[k])]
  }

  /** The `i`-th write carries (a prefix of) the `i`-th queued payload. */
  lemma {:induction false} SentInOrder(queue: seq<seq<Byte>>, accepted: seq<nat>, i: nat)
    requires |accepted| == |queue| && i < |queue|
    ensures Sent(queue, accepted)[i] == Written(queue[i], accepted[i])
  {
    var k := |queue| - 1;
    if i < k {
      var q, a := queue[..k], accepted[..k];
      SentInOrder(q, a, i);
      assert q[i] == queue[i] && a[i] == accepted[i];
    }
  }

  /** Every payload the device takes in full is sent in full. */
  lemma {:induction false} SentInFull(queue: seq<seq<Byte>>, accepted: seq<nat>)
    requires |accepted| == |queue|
    requires forall i :: 0 <= i < |queue| ==> accepted[i] >= |queue[i]|
    ensures Sent(queue, accepted) == queue
  {
    if |queue| > 0 {
      var k := |queue| - 1;
      var q, a := queue[..k], accepted[..k];
      assert Sent(q, a) == q by {
        forall i | 0 <= i < |q| ensures a[i] >= |q[i]| {
          assert a[i] == accepted[i] && q[i] == queue[i];
        }
        SentInFull(q, a);
      }
      assert Written(queue[k], accepted[k]) == queue[k];
      assert queue == q + [queue[k]];
    }
  }

  /** Serves the queue front to back; `accepted[i]` is the count the device
      accepts on the `i`-th write. */
  method Drain(queue: seq<seq<Byte>>, accepted: seq<nat>) returns (line: seq<Byte>)
    requires |accepted| == |queue|
    ensures line == Flatten(Sent(queue, accepted))
    ensures (forall i :: 0 <= i < |queue| ==> accepted[i] >= |queue[i]|) ==> line == Flatten(queue)
  {
    line := [];
    var i := 0;
    while i < |queue|
      invariant 0 <= i <= |queue|
      invariant line == Flatten(Sent(queue[..i], accepted[..i]))
    {
      var sent := Sent(queue[..i + 1], accepted[..i + 1]);
      assert queue[..i + 1][..i] == queue[..i] && accepted[..i + 1][..i] == accepted[..i];
      assert sent[..i] == Sent(queue[..i], accepted[..i]);
      line := line + Written(queue[i], accepted[i]);
      i := i + 1;
    }
    assert queue[..i] == queue && accepted[..i] == accepted;
    if forall j :: 0 <= j < |queue| ==> accepted[j] >= |queue[j]| {
      SentInFull(queue, accepted);
    }
  }

  /** FIFO without interleaving: once a queue is served in full, every earlier
      payload's bytes appear on the line contiguously and before every later
      payload's bytes. */
  lemma FifoOrder(before: seq<seq<Byte>>, a: seq<Byte>, between: seq<seq<Byte>>, b: seq<Byte>, after: seq<seq<Byte>>)
    ensures var line := Flatten(before + [a] + between + [b] + after);
            var i := |Flatten(before)|;
            var j := i + |a| + |Flatten(between)|;
            && j + |b| <= |line|
            && line[i..i + |a|] == a
            && line[j..j + |b|] == b
  {
    assert Flatten([a]) == a && Flatten([b]) == b by {
      assert [a][..0] == [] && [b][..0] == [];
    }
    var p1 := before + [a];
    var p2 := p1 + between;
    var p3 := p2 + [b];
    FlattenAppend(before, [a]);
    FlattenAppend(p1, between);
    FlattenAppend(p2, [b]);
    FlattenAppend(p3, after);
    var f1 := Flatten(before) + a;
    var f3 := f1 + Flatten(between) + b;
    assert Flatten(p3) == f3;
    assert Flatten(p3 + after) == f3 + Flatten(after);
    assert f1[|Flatten(before)|..] == a;
    assert f3[|f1| + |Flatten(between)|..] == b;
  }
}
