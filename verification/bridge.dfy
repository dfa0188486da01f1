/**
 One iteration of the bridge loop as a pure transition. The loop keeps one
 piece of state, the sequence number of the last datagram of at least 8
 bytes, whatever its kind (zero at start-up); the payloads it hands to the serial writer form an append-only
 queue. Each iteration receives one datagram and its sender, then performs one
 serial read, and answers every frame of that read to this iteration's sender.
 */
module Bridge {
  import opened Bytes
  import Framer
  import opened Envelope

  /** Size of the buffer shared by `recv_from` and the serial `read`. */
  const BufferSize: nat := 1024

  /** A peer's socket address; the bridge only copies it into replies. */
  datatype SocketAddr = SocketAddr(ip: seq<Byte>, port: U16)

  /** The result of one serial read: an I/O error, or the bytes read (possibly
      none). */
  datatype SerialRead = ReadFailed | ReadOk(bytes: seq<Byte>)

  datatype State = State(seqNumber: U32, writeQueue: seq<seq<Byte>>)

  /** The state before the first datagram. */
  const Initial: State := State(0, [])

  /** An outgoing UDP datagram and its destination. */
  datatype Datagram = Datagram(to: SocketAddr, bytes: seq<Byte>)

  /** An iteration either completes, or panics on a datagram too short to hold
      a header, which ends the loop. */
  datatype Outcome = Continue(next: State, replies: seq<Datagram>) | Panicked

  datatype Option<T> = None | Some(value: T)

  /** The inputs of one iteration. */
  datatype Iteration = Iteration(datagram: seq<Byte>, from: SocketAddr, read: SerialRead)

  /** The shared buffer bounds what one receive or one read can deliver. */
  predicate Admissible(it: Iteration)
  {
    |it.datagram| <= BufferSize && (it.read.ReadOk? ==> |it.read.bytes| <= BufferSize)
  }

  /** Every iteration of a run is admissible. */
  predicate AllAdmissible(its: seq<Iteration>)
  {
    |its| == 0 || (AllAdmissible(its[..|its| - 1]) && Admissible(its[|its| - 1]))
  }

  /** A datagram that is neither empty nor long enough for a header. */
  predicate Malformed(datagram: seq<Byte>)
  {
    0 < |datagram| < HeaderSize
  }

  /** The inbound half: an empty datagram changes nothing; otherwise its
      sequence number replaces the stored one and its payload is queued for the
      serial line. */
  function Receive(st: State, datagram: seq<Byte>): (r: Option<State>)
    ensures r.None? <==> Malformed(datagram)
    ensures |datagram| == 0 ==> r == Some(st)
    ensures |datagram| >= HeaderSize ==>
              && r.Some?
              && EncodeBE(r.value.seqNumber, 4) == datagram[4..HeaderSize]
              && r.value.writeQueue == st.writeQueue + [datagram[HeaderSize..]]
  {
    if |datagram| == 0 then Some(st)
    else
      match Decode(datagram)
      case TruncatedHeader => None
      case Ok(inbound) => Some(State(inbound.sequence, st.writeQueue + [inbound.payload]))
  }

  /** `d` is the reply to the serial frame `frame`: sent to `to`, of the
      reply kind, with a length field counting exactly the bytes after the
      header, and decoding to `sequence` and the frame with its terminator. */
  predicate Answers(d: Datagram, to: SocketAddr, sequence: U32, frame: seq<Byte>)
  {
    && d.to == to
    && |d.bytes| == HeaderSize + |frame| + 1
    && d.bytes[..2] == ReplyKind
    && BEValue(d.bytes[2..4]) == |d.bytes| - HeaderSize
    && Decode(d.bytes) == Ok(Inbound(sequence, frame + [Framer.Terminator]))
  }

  lemma ReplyAnswers(to: SocketAddr, sequence: U32, frame: seq<Byte>)
    requires |frame| <= BufferSize
    ensures Answers(Datagram(to, EncodeReply(sequence, frame)), to, sequence, frame)
  {
    ReplyLengthField(sequence, frame);
    DecodeReply(sequence, frame);
  }

  /** The outbound half: one reply per frame of the serial read, in frame
      order; a failed or empty read sends nothing. */
  function Replies(sequence: U32, to: SocketAddr, read: SerialRead): (out: seq<Datagram>)
    requires read.ReadOk? ==> |read.bytes| <= BufferSize
    ensures read.ReadFailed? || read.bytes == [] ==> out == []
    ensures read.ReadOk? ==> |out| == |Framer.Frames(read.bytes)|
  {
    if read.ReadFailed? || |read.bytes| == 0 then []
    else
      var frames := Framer.Frames(read.bytes);
      seq(|frames|, i requires 0 <= i < |frames| => Datagram(to, EncodeReply(sequence, frames[i])))
  }

  /** The i-th reply answers the i-th frame of the read. */
  lemma RepliesAnswerFrames(sequence: U32, to: SocketAddr, read: SerialRead)
    requires read.ReadOk? && |read.bytes| <= BufferSize
    ensures var out := Replies(sequence, to, read);
            forall i :: 0 <= i < |out| ==> Answers(out[i], to, sequence, Framer.Frames(read.bytes)[i])
  {
    var out := Replies(sequence, to, read);
    var frames := Framer.Frames(read.bytes);
    Framer.FramesWellFormed(read.bytes);
    forall i | 0 <= i < |out|
      ensures Answers(out[i], to, sequence, frames[i])
    {
      ReplyAnswers(to, sequence, frames[i]);
    }
  }

  /** One iteration: receive, then answer the serial read with the sequence
      number as it stands after the receive. */
  function Step(st: State, it: Iteration): (r: Outcome)
    requires Admissible(it)
    ensures r.Panicked? <==> Malformed(it.datagram)
    ensures r.Continue? ==> Receive(st, it.datagram) == Some(r.next)
    ensures r.Continue? ==> r.replies == Replies(r.next.seqNumber, it.from, it.read)
  {
    match Receive(st, it.datagram)
    case None => Panicked
    case Some(next) => Continue(next, Replies(next.seqNumber, it.from, it.read))
  }

  /** Every reply of an iteration goes to that iteration's sender and carries
      the sequence number stored at the end of the iteration. */
  lemma StepReplies(st: State, it: Iteration)
    requires Admissible(it)
    ensures var r := Step(st, it);
            r.Continue? ==>
              forall i :: 0 <= i < |r.replies| ==>
                && r.replies[i].to == it.from
                && Decode(r.replies[i].bytes).Ok?
                && Decode(r.replies[i].bytes).inbound.sequence == r.next.seqNumber
  {
    var r := Step(st, it);
    if r.Continue? && it.read.ReadOk? {
      RepliesAnswerFrames(r.next.seqNumber, it.from, it.read);
    }
  }

  /** A run of iterations from `st`: the replies of all iterations in order,
      stopping at the first panic. */
  function Run(st: State, its: seq<Iteration>): (r: Outcome)
    requires AllAdmissible(its)
  {
    if |its| == 0 then Continue(st, [])
    else
      match Run(st, its[..|its| - 1])
      case Panicked => Panicked
      case Continue(mid, out) =>
        match Step(mid, its[|its| - 1])
        case Panicked => Panicked
        case Continue(next, replies) => Continue(next, out + replies)
  }

  /** Reference: the sequence number of the last datagram long enough to
      carry one, or `initial` if there is none. */
  function LastSequence(initial: U32, its: seq<Iteration>): (sequence: U32)
  {
    if |its| == 0 then initial
    else
      var d := its[|its| - 1].datagram;
      if |d| >= HeaderSize then
        FieldRanges();
        BEValue(d[4..HeaderSize])
      else LastSequence(initial, its[..|its| - 1])
  }

  /** Reference: the payloads of all datagrams that carry a header, in
      arrival order. */
  function Enqueued(its: seq<Iteration>): (queue: seq<seq<Byte>>)
  {
    if |its| == 0 then []
    else
      var d := its[|its| - 1].datagram;
      Enqueued(its[..|its| - 1]) + (if |d| >= HeaderSize then [d[HeaderSize..]] else [])
  }

  /** The state after one iteration in terms of the datagram's bytes. */
  lemma StepState(st: State, it: Iteration)
    requires Admissible(it)
    ensures Step(st, it).Continue? ==>
              Step(st, it).next == State(LastSequence(st.seqNumber, [it]), st.writeQueue + Enqueued([it]))
  {
    var d := it.datagram;
    assert [it][..0] == [];
    if |d| >= HeaderSize {
      var n := Step(st, it).next.seqNumber;
      FieldRanges();
      DecodeEncode(n, 4);
      BEValueInjective(EncodeBE(n, 4), d[4..HeaderSize]);
    }
  }

  /** Some datagram of the run is malformed. */
  predicate SomeMalformed(its: seq<Iteration>)
  {
    exists i :: 0 <= i < |its| && Malformed(its[i].datagram)
  }

  lemma SomeMalformedLast(its: seq<Iteration>)
    requires |its| > 0
    ensures SomeMalformed(its) <==> SomeMalformed(its[..|its| - 1]) || Malformed(its[|its| - 1].datagram)
  {
    var init := its[..|its| - 1];
    if SomeMalformed(init) {
      var i :| 0 <= i < |init| && Malformed(init[i].datagram);
      assert its[i] == init[i];
    }
    if SomeMalformed(its) {
      var i :| 0 <= i < |its| && Malformed(its[i].datagram);
      if i < |init| {
        assert its[i] == init[i];
      }
    }
  }

  /** A run panics exactly when one of its datagrams is malformed. */
  lemma {:induction false} RunPanics(st: State, its: seq<Iteration>)
    requires AllAdmissible(its)
    ensures Run(st, its).Panicked? <==> SomeMalformed(its)
  {
    if |its| > 0 {
      var init, last := its[..|its| - 1], its[|its| - 1];
      RunPanics(st, init);
      SomeMalformedLast(its);
      var prev := Run(st, init);
      if prev.Continue? {
        var r := Step(prev.next, last);
        assert r.Panicked? <==> Malformed(last.datagram);
        assert Run(st, its).Panicked? <==> r.Panicked?;
      }
    }
  }

  /** Over a run, the stored sequence number is the last one received (last
      write wins) and the serial queue holds every payload in arrival order. */
  lemma {:induction false} RunState(st: State, its: seq<Iteration>)
    requires AllAdmissible(its)
    ensures Run(st, its).Continue? ==>
              Run(st, its).next == State(LastSequence(st.seqNumber, its), st.writeQueue + Enqueued(its))
  {
    if |its| > 0 {
      var init, last := its[..|its| - 1], its[|its| - 1];
      RunState(st, init);
      var prev := Run(st, init);
      if prev.Continue? {
        var mid := prev.next;
        StepState(mid, last);
        assert [last][..0] == [];
        var r := Step(mid, last);
        if r.Continue? {
          assert Run(st, its).next == r.next;
          assert LastSequence(st.seqNumber, its) == LastSequence(mid.seqNumber, [last]);
          assert Enqueued(its) == Enqueued(init) + Enqueued([last]);
        }
      }
    }
  }

  /** From start-up, the sequence number is zero until the first datagram
      with a header arrives. */
  lemma RunFromStartup(its: seq<Iteration>)
    requires AllAdmissible(its)
    requires forall i :: 0 <= i < |its| ==> |its[i].datagram| == 0
    ensures Run(Initial, its).Continue? && Run(Initial, its).next == Initial
  {
    RunPanics(Initial, its);
    RunState(Initial, its);
    ZeroLengthOnly(its);
  }

  lemma {:induction false} ZeroLengthOnly(its: seq<Iteration>)
    requires forall i :: 0 <= i < |its| ==> |its[i].datagram| == 0
    ensures LastSequence(0, its) == 0 && Enqueued(its) == []
  {
    if |its| > 0 {
      ZeroLengthOnly(its[..|its| - 1]);
    }
  }

  /** A command datagram with sequence number 9 followed by the camera's
      answer `90 50 02 FF`: the payload `81 01 04` is queued for the serial
      line and the answer goes back to the sender as
      `01 11 00 04 00 00 00 09 90 50 02 FF`. */
  lemma EndToEndExample(peer: SocketAddr)
    ensures Step(Initial, Iteration([0x01, 0x00, 0x00, 0x03, 0x00, 0x00, 0x00, 0x09, 0x81, 0x01, 0x04],
                                    peer, ReadOk([0x90, 0x50, 0x02, 0xFF])))
         == Continue(State(9, [[0x81, 0x01, 0x04]]),
                     [Datagram(peer, [0x01, 0x11, 0x00, 0x04, 0x00, 0x00, 0x00, 0x09, 0x90, 0x50, 0x02, 0xFF])])
  {
    var d: seq<Byte> := [0x01, 0x00, 0x00, 0x03, 0x00, 0x00, 0x00, 0x09, 0x81, 0x01, 0x04];
    var serial: seq<Byte> := [0x90, 0x50, 0x02, 0xFF];
    var reply: seq<Byte> := [0x01, 0x11, 0x00, 0x04, 0x00, 0x00, 0x00, 0x09, 0x90, 0x50, 0x02, 0xFF];
    var next := State(9, [[0x81, 0x01, 0x04]]);
    assert Receive(Initial, d) == Some(next) by {
      DecodeCommandExample();
      assert Initial.writeQueue + [[0x81, 0x01, 0x04]] == [[0x81, 0x01, 0x04]];
    }
    assert Replies(9, peer, ReadOk(serial)) == [Datagram(peer, reply)] by {
      var frame: seq<Byte> := [0x90, 0x50, 0x02];
      assert frame + [Framer.Terminator] == serial;
      SingleFrameReply(9, peer, frame);
      EncodeReplyExample();
    }
  }

  /** A read holding exactly one terminated frame yields exactly one reply. */
  lemma SingleFrameReply(sequence: U32, to: SocketAddr, frame: seq<Byte>)
    requires Framer.IsFrame(frame) && |frame| < BufferSize
    ensures Replies(sequence, to, ReadOk(frame + [Framer.Terminator])) == [Datagram(to, EncodeReply(sequence, frame))]
  {
    assert Framer.Serialize([frame]) == frame + [Framer.Terminator] by {
      assert [frame][..0] == [];
    }
    Framer.FramesSerialize([frame]);
    var out := Replies(sequence, to, ReadOk(frame + [Framer.Terminator]));
    assert |out| == 1;
    assert out[0] == Datagram(to, EncodeReply(sequence, frame));
  }

  /** Two datagrams of at least 8 bytes in a row, of any kinds and possibly
      from different senders: the second one's sequence number replaces the
      first one's (last write wins, nothing is merged) and both payloads are
      queued, first one first. */
  lemma LastWriteWins(first: Iteration, second: Iteration)
    requires Admissible(first) && Admissible(second)
    requires |first.datagram| >= HeaderSize && |second.datagram| >= HeaderSize
    ensures AllAdmissible([first, second])
    ensures var r := Run(Initial, [first, second]);
            && r.Continue?
            && Decode(second.datagram) == Ok(Inbound(r.next.seqNumber, second.datagram[HeaderSize..]))
            && r.next.writeQueue == [first.datagram[HeaderSize..], second.datagram[HeaderSize..]]
  {
    var its := [first, second];
    assert its[..1] == [first] && [first][..0] == [];
    assert AllAdmissible(its);
    RunPanics(Initial, its);
    assert !Malformed(its[0].datagram) && !Malformed(its[1].datagram);
    RunState(Initial, its);
    assert Enqueued([first]) == [first.datagram[HeaderSize..]];
    assert Enqueued(its) == [first.datagram[HeaderSize..], second.datagram[HeaderSize..]];
    FieldRanges();
    var n := BEValue(second.datagram[4..HeaderSize]);
    DecodeEncode(n, 4);
    BEValueInjective(EncodeBE(n, 4), second.datagram[4..HeaderSize]);
  }

  /** The kind is never consulted: an inquiry (`01 10`) with sequence number
      5 replaces the stored sequence number 4 of an earlier command, so the
      replies of this iteration carry 5. */
  lemma InquiryReplacesSequence()
    ensures Receive(State(4, []), [0x01, 0x10, 0x00, 0x05, 0x00, 0x00, 0x00, 0x05, 0x81, 0x09, 0x04, 0x00, 0xFF])
         == Some(State(5, [[0x81, 0x09, 0x04, 0x00, 0xFF]]))
  {
    var d: seq<Byte> := [0x01, 0x10, 0x00, 0x05, 0x00, 0x00, 0x00, 0x05, 0x81, 0x09, 0x04, 0x00, 0xFF];
    assert d[4..HeaderSize] == [0, 0, 0, 5];
    BEValueQuad(d[4..HeaderSize]);
    assert d[HeaderSize..] == [0x81, 0x09, 0x04, 0x00, 0xFF];
    assert Decode(d) == Ok(Inbound(5, [0x81, 0x09, 0x04, 0x00, 0xFF]));
    assert State(4, []).writeQueue + [d[HeaderSize..]] == [[0x81, 0x09, 0x04, 0x00, 0xFF]];
    assert Receive(State(4, []), d) == Some(State(5, [[0x81, 0x09, 0x04, 0x00, 0xFF]]));
  }
}
