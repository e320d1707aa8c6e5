/** What each event does to the child, said by what it sends, keeps and writes. */
module ReceiverLaws {
  import opened Bytes
  import opened Codec
  import opened ReceiverBuffer
  import opened ReceiverMachine
  import opened ReceiverSafety
  import opened SystemCalls

  /** An RR or SREJ for this number. */
  predicate Asks(d: Datagram, flag: Byte, n: U32) {
    HasFlag(d, flag) && |Decode(d).value.data| == 4 && Value(d) == n
  }

  /** A packet below the expected one, or a window and more beyond it, is not kept, and is answered with
      one RR for the expected packet. So is every packet once the limit of the window has wrapped. */
  lemma OldOrFarIsAcknowledged(r: Receiver, d: Datagram)
    requires Inv(r) && r.at.RecvData? && HasFlag(d, FLAG_DATA)
    requires var n, b := Decode(d).value.seqNo, r.buffer;
             n < b.expected || b.expected + b.size <= n || b.expected + b.size >= TWO32
    ensures var t := Step(r, Received(d));
            && t == r.(outbox := t.outbox, controlSeq := t.controlSeq)
            && exists rr :: t.outbox == r.outbox + [rr] && Asks(rr, FLAG_RR, r.buffer.expected)
  {
    hide Encode, Decode, U32Of, U32Bytes, Disciplined, Genuine;
    InWindowExactly(r.buffer);
    assert Asks(Encode(Packet(r.controlSeq, FLAG_RR, U32Bytes(r.buffer.expected))), FLAG_RR, r.buffer.expected);
  }

  /** A packet in the window beyond the expected one is kept, unless one of its number was kept before,
      and nothing is written. The first packet kept beyond a gap has the expected one requested, the
      others find it requested already. */
  lemma LaterIsKeptAndRequested(r: Receiver, d: Datagram)
    requires Inv(r) && r.at.RecvData? && HasFlag(d, FLAG_DATA)
    requires r.buffer.expected < Decode(d).value.seqNo < r.buffer.expected + r.buffer.size < TWO32
    ensures var t, n, b := Step(r, Received(d)), Decode(d).value.seqNo, r.buffer;
            && t.at == r.at
            && t.buffer.expected == b.expected && t.buffer.output == b.output && t.buffer.size == b.size
            && t.buffer.live == (if n in b.live then b.live else b.live[n := Decode(d).value.data])
            && (if b.live == map[] then
                  exists srej :: t.outbox == r.outbox + [srej] && Asks(srej, FLAG_SREJ, b.expected)
                else t.outbox == r.outbox)
            && Requested(t.outbox, b.expected)
  {
    hide Encode, Decode, U32Of, U32Bytes, Genuine, HandleData, Disciplined, Asks;
    InWindowExactly(r.buffer);
    LaterIsAnswered(r, Decode(d).value.seqNo, Decode(d).value.data);
    DataKeepsInv(r, Decode(d).value.seqNo, Decode(d).value.data);
    LatchRequested(Step(r, Received(d)));
  }

  lemma LatchRequested(r: Receiver)
    requires Inv(r) && Serving(r) && r.buffer.live != map[]
    ensures Requested(r.outbox, r.buffer.expected)
  {
    hide Genuine, Encode, Decode, HasFlag;
  }

  lemma LaterIsAnswered(r: Receiver, n: U32, data: seq<Byte>)
    requires r.buffer.expected < n && r.buffer.InWindow(n) && Latched(r.buffer)
    ensures var t, b := HandleData(r, n, data), r.buffer;
            && t.at == r.at
            && t.buffer == b.(live := t.buffer.live, missingActive := true, missingSeq := b.expected)
            && t.buffer.live == (if n in b.live then b.live else b.live[n := data]) && n in t.buffer.live
            && if b.live == map[] then
                 exists srej :: t.outbox == r.outbox + [srej] && Asks(srej, FLAG_SREJ, b.expected)
               else t.outbox == r.outbox
  {
    hide Encode, Decode, U32Of, U32Bytes;
    assert Asks(Encode(Packet(r.controlSeq, FLAG_SREJ, U32Bytes(r.buffer.expected))), FLAG_SREJ, r.buffer.expected);
  }

  /** The expected packet is written, and after it every packet that was waiting for it, up to the next
      gap; that is acknowledged with one RR, and if packets beyond the gap are kept it is requested. */
  lemma ExpectedIsWritten(r: Receiver, d: Datagram)
    requires Inv(r) && r.at.RecvData? && HasFlag(d, FLAG_DATA)
    requires Decode(d).value.seqNo == r.buffer.expected && r.buffer.expected + r.buffer.size < TWO32
    requires r.buffer.size > 0
    ensures var t, b := Step(r, Received(d)), r.buffer;
            var next := t.buffer.expected;
            && t.at == r.at && t.buffer.size == b.size
            && b.expected < next && next !in b.live
            && (forall n: U32 :: b.expected < n < next ==> n in b.live)
            && t.buffer.output == b.output + Decode(d).value.data + Payloads(b.live, b.expected + 1, next)
            && t.buffer.live == (map n | n in b.live && next <= n :: b.live[n])
            && exists rr :: Asks(rr, FLAG_RR, next) &&
                 if t.buffer.live == map[] then t.outbox == r.outbox + [rr]
                 else exists srej :: Asks(srej, FLAG_SREJ, next) && t.outbox == r.outbox + [rr] + [srej]
  {
    hide Encode, Decode, U32Of, U32Bytes, Genuine, Disciplined, Filled, Payloads, HandleData, Asks;
    InWindowExactly(r.buffer);
    ExpectedDrains(r.buffer, Decode(d).value.data);
    ExpectedIsAnswered(r, Decode(d).value.data);
  }

  lemma ExpectedIsAnswered(r: Receiver, data: seq<Byte>)
    requires r.at.RecvData? && r.buffer.InWindow(r.buffer.expected)
    requires var f := Filled(r.buffer, data); !f.missingActive && (f.HasLater() <==> f.live != map[])
    ensures var t, f := HandleData(r, r.buffer.expected, data), Filled(r.buffer, data);
            && t.at == r.at && t.buffer == (if f.live == map[] then f else f.RejectNoted())
            && exists rr :: Asks(rr, FLAG_RR, f.expected) &&
                 if f.live == map[] then t.outbox == r.outbox + [rr]
                 else exists srej :: Asks(srej, FLAG_SREJ, f.expected) && t.outbox == r.outbox + [rr] + [srej]
  {
    hide Encode, Decode, U32Of, U32Bytes, Buf.WriteReady;
    var next := Filled(r.buffer, data).expected;
    var rr := Encode(Packet(r.controlSeq, FLAG_RR, U32Bytes(next)));
    var srej := Encode(Packet(Wrap32(r.controlSeq + 1), FLAG_SREJ, U32Bytes(next)));
    assert Asks(rr, FLAG_RR, next) && Asks(srej, FLAG_SREJ, next);
  }

  lemma ExpectedDrains(b: Buf, data: seq<Byte>)
    requires b.Settled() && Latched(b) && b.size > 0 && b.expected + b.size < TWO32
    ensures var f := Filled(b, data);
            && b.expected < f.expected && f.expected !in b.live && f.size == b.size && !f.missingActive
            && (forall n: U32 :: b.expected < n < f.expected ==> n in b.live)
            && f.output == b.output + data + Payloads(b.live, b.expected + 1, f.expected)
            && f.live == (map n | n in b.live && f.expected <= n :: b.live[n])
            && (f.HasLater() <==> f.live != map[])
  {
    var c := b.Save(b.expected, data).RejectCleared(b.expected);
    InWindowExactly(b);
    DrainsMaximalRun(c);
    hide Buf.WriteReady, Payloads;
    var f := c.WriteReady();
    assert b.expected in c.live;
    PayloadsOfFirst(c.live, b.expected, f.expected);
    assert forall n: U32 :: b.expected < n < f.expected ==> n in c.live;
    assert c.live - {b.expected} == b.live;
    PayloadsOfRest(c.live, b.expected, b.expected + 1, f.expected);
    if f.live != map[] {
      var n :| n in f.live;
    }
  }

  lemma PayloadsOfFirst(live: map<U32, seq<Byte>>, first: U32, last: U32)
    requires first < last && forall n: U32 :: first <= n < last ==> n in live
    ensures Payloads(live, first, last) == live[first] + Payloads(live, first + 1, last)
  {
  }

  /** The end of the file is acknowledged with one datagram, which is remembered, and the wait for DONE
      begins with all its tries. */
  lemma EofIsAcknowledged(r: Receiver, d: Datagram)
    requires r.at.RecvData? && HasFlag(d, FLAG_EOF)
    ensures var t := Step(r, Received(d));
            && t == r.(at := WaitOnDone, retryCount := 0, lastAck := t.lastAck, controlSeq := t.controlSeq,
                       outbox := r.outbox + [t.lastAck])
            && HasFlag(t.lastAck, FLAG_EOF_ACK) && Decode(t.lastAck).value.data == []
  {
    hide Encode, Decode;
  }

  /** Anything else, and in particular everything that fails the check, leaves a receiving child as it
      was; silence ends it. */
  lemma ReceivingIgnoresTheRest(r: Receiver, d: Datagram)
    requires r.at.RecvData?
    ensures !HasFlag(d, FLAG_DATA) && !HasFlag(d, FLAG_EOF) ==> Step(r, Received(d)) == r
    ensures Step(r, Timeout) == r.(at := Done)
  {
    hide Encode;
  }

  /** While the child waits for DONE: that ends it; a repeated EOF and a silence, but the tenth, have the
      acknowledgement sent again; the tenth silence ends it; nothing else matters. */
  lemma WaitingAnswers(r: Receiver, d: Datagram)
    requires r.at.WaitOnDone?
    ensures Step(r, Received(d)) == if HasFlag(d, FLAG_DONE) then r.(at := Done)
                                    else if HasFlag(d, FLAG_EOF) then r.(outbox := r.outbox + [r.lastAck])
                                    else r
    ensures Step(r, Timeout) == if r.retryCount >= 9 then r.(at := Done, retryCount := r.retryCount + 1)
                                else r.(retryCount := r.retryCount + 1, outbox := r.outbox + [r.lastAck])
  {
    hide Encode;
  }

  /** How often a poll found nothing while the child waited for DONE. */
  ghost function Silences(r: Receiver, log: seq<Io>): nat {
    if log == [] then 0
    else
      var before := log[..|log| - 1];
      Silences(r, before) + if Run(r, before).at.WaitOnDone? && log[|log| - 1].Timeout? then 1 else 0
  }

  lemma StepKeepsCount(r: Receiver, io: Io)
    requires Awaits(r, io) && (r.at.RecvData? ==> r.retryCount == 0)
    ensures var t := Step(r, io);
            && (t.at.RecvData? ==> r.at.RecvData? && t.retryCount == 0)
            && (r.at.RecvData? && t.at.WaitOnDone? ==> t.retryCount == 0)
            && (r.at.WaitOnDone? ==> t.retryCount == r.retryCount + if io.Timeout? then 1 else 0)
            && (r.at.WaitOnDone? && io.Timeout? ==> (t.at.Done? <==> t.retryCount >= 10))
            && (r.at.WaitOnDone? ==> !t.at.RecvData?)
  {
    hide Encode, Decode, HandleData;
    if r.at.RecvData? && io.Received? && Decode(io.datagram).Some? {
      DataLeavesPlace(r, Decode(io.datagram).value.seqNo, Decode(io.datagram).value.data);
    }
  }

  lemma DataLeavesPlace(r: Receiver, n: U32, data: seq<Byte>)
    ensures var t := HandleData(r, n, data); t.at == r.at && t.retryCount == r.retryCount && t.lastAck == r.lastAck
    ensures var t := HandleData(r, n, data); t.windowSize == r.windowSize && t.bufferSize == r.bufferSize
    ensures HandleData(r, n, data).outputName == r.outputName
  {
    hide Encode;
  }

  /** The wait for DONE is given up exactly at the tenth silence. */
  lemma {:induction false} GivesUpAtTenthSilence(first: Datagram, setup: Setup, log: seq<Io>)
    requires Possible(Forked(first, setup), log)
    ensures var r, silences := Run(Forked(first, setup), log), Silences(Forked(first, setup), log);
            && (r.at.RecvData? ==> silences == 0 && r.retryCount == 0)
            && (r.at.WaitOnDone? ==> r.retryCount == silences < 10)
            && silences <= 10 && (silences == 10 ==> r.at.Done?)
  {
    if log != [] {
      hide Step, Forked;
      GivesUpAtTenthSilence(first, setup, log[..|log| - 1]);
      StepKeepsCount(Run(Forked(first, setup), log[..|log| - 1]), log[|log| - 1]);
    }
  }

  /** How the child starts: it submits one response, which is 0 exactly if the output file could be opened,
      and it goes on exactly if its buffer could be made as well. */
  lemma ForkedExactly(first: Datagram, setup: Setup)
    ensures var r := Forked(first, setup);
            && |r.outbox| == 1
            && Decode(r.outbox[0]) == Some(Packet(1, FLAG_FILENAME_RESP, [if setup.CannotOpen? then 1 else 0]))
            && r.controlSeq == 2 && r.retryCount == 0
            && (if setup.Ready? && AnnouncedSize(first) < 0x8000_0000
                then r.at.RecvData? && r.buffer == InitialBuf(AnnouncedSize(first), 2)
                else r.at.Done? && r.buffer == NO_BUFFER)
            && r.windowSize == AnnouncedSize(first) && r.bufferSize == AnnouncedBufferSize(first)
            && r.outputName == AnnouncedName(first)
  {
    hide Encode, Decode, AnnouncedSize, AnnouncedBufferSize, AnnouncedName;
  }

  /** A refusal: the child is done, and all it ever submitted are responses that are not 0. */
  ghost predicate Refused(r: Receiver) {
    && r.at.Done?
    && forall d :: d in r.outbox ==>
        HasFlag(d, FLAG_FILENAME_RESP) && |Decode(d).value.data| >= 1 && Decode(d).value.data[0] != 0
  }

  /** A child that cannot open its output file refuses, and that is all it ever does. */
  lemma {:induction false} CannotOpenRefuses(first: Datagram, log: seq<Io>)
    ensures Refused(Run(Forked(first, CannotOpen), log))
  {
    hide Forked, Decode, ReceiveStep, WaitStep;
    if log == [] {
      ForkedExactly(first, CannotOpen);
    } else {
      CannotOpenRefuses(first, log[..|log| - 1]);
    }
  }

  lemma StepKeepsServing(r: Receiver, io: Io)
    requires Inv(r) && Serving(r)
    ensures Serving(Step(r, io))
  {
    StepKeepsInv(r, io);
    hide Encode, Decode, HandleData, Disciplined, Genuine, Latched;
    if r.at.RecvData? && io.Received? && HasFlag(io.datagram, FLAG_DATA) {
      DataLeavesPlace(r, Decode(io.datagram).value.seqNo, Decode(io.datagram).value.data);
    }
  }

  /** What the child was told at the fork it never forgets. */
  lemma {:induction false} KeepsNames(r: Receiver, log: seq<Io>)
    ensures var t := Run(r, log);
            t.outputName == r.outputName && t.windowSize == r.windowSize && t.bufferSize == r.bufferSize
  {
    if log != [] {
      KeepsNames(r, log[..|log| - 1]);
      StepKeepsNames(Run(r, log[..|log| - 1]), log[|log| - 1]);
    }
  }

  lemma StepKeepsNames(r: Receiver, io: Io)
    ensures var t := Step(r, io);
            t.outputName == r.outputName && t.windowSize == r.windowSize && t.bufferSize == r.bufferSize
  {
    hide Encode, Decode, HandleData;
    if r.at.RecvData? && io.Received? && Decode(io.datagram).Some? {
      DataLeavesPlace(r, Decode(io.datagram).value.seqNo, Decode(io.datagram).value.data);
    }
  }

  /** The latch asks once for each expected number, and only the packet it names frees it. */
  lemma LatchAsksOnce(b: Buf, n: U32)
    ensures b.NeedsReject() <==> !(b.missingActive && b.missingSeq == b.expected)
    ensures !b.RejectNoted().NeedsReject()
    ensures b.RejectNoted().RejectCleared(n).NeedsReject() <==> n == b.expected
    ensures b.RejectNoted().(expected := n).NeedsReject() <==> n != b.expected
    ensures b.RejectCleared(n).missingActive <==> b.missingActive && b.missingSeq != n
    ensures b.RejectCleared(n).(missingActive := b.missingActive) == b
    ensures b.RejectNoted().(missingActive := b.missingActive, missingSeq := b.missingSeq) == b
  {
  }

  /** The first `upTo` datagrams carry the numbers from 1 on; the rest repeat the acknowledgement of the
      end of the file, which is the last of those. */
  ghost predicate Numbered(r: Receiver, upTo: nat) {
    && upTo <= |r.outbox| && r.controlSeq == (1 + upTo) % TWO32
    && (forall i :: 0 <= i < upTo ==> Decode(r.outbox[i]).Some? && Decode(r.outbox[i]).value.seqNo == (1 + i) % TWO32)
    && (forall i :: upTo <= i < |r.outbox| ==> r.outbox[i] == r.lastAck)
    && (r.at.RecvData? ==> upTo == |r.outbox|)
    && (r.at.WaitOnDone? ==> 0 < upTo && r.outbox[upTo - 1] == r.lastAck)
  }

  lemma SubmitNumbers(r: Receiver, flag: Byte, data: seq<Byte>)
    requires r.at.RecvData? && Numbered(r, |r.outbox|)
    ensures Numbered(r.SubmitNumbered(flag, data), |r.outbox| + 1)
  {
    hide Encode, Decode;
  }

  lemma DataNumbers(r: Receiver, n: U32, data: seq<Byte>)
    requires r.at.RecvData? && Numbered(r, |r.outbox|)
    ensures Numbered(HandleData(r, n, data), |HandleData(r, n, data).outbox|)
  {
    hide Encode, Decode, U32Bytes, Buf.WriteReady, Buf.InWindow, Buf.HasLater, Buf.Save;
    DataLeavesPlace(r, n, data);
    var v := U32Bytes(r.buffer.expected);
    SubmitNumbers(r, FLAG_RR, v);
    SubmitNumbers(r, FLAG_SREJ, v);
    var w := U32Bytes(r.buffer.Save(n, data).RejectCleared(n).WriteReady().expected);
    SubmitNumbers(r, FLAG_RR, w);
    SubmitNumbers(r.SubmitNumbered(FLAG_RR, w), FLAG_SREJ, w);
  }

  lemma StepNumbers(r: Receiver, io: Io, upTo: nat) returns (next: nat)
    requires Numbered(r, upTo)
    ensures Numbered(Step(r, io), next)
  {
    hide Encode, Decode, HandleData;
    next := upTo;
    if r.at.RecvData? && io.Received? {
      if HasFlag(io.datagram, FLAG_DATA) {
        var p := Decode(io.datagram).value;
        DataNumbers(r, p.seqNo, p.data);
        next := |HandleData(r, p.seqNo, p.data).outbox|;
      } else if HasFlag(io.datagram, FLAG_EOF) {
        SubmitNumbers(r, FLAG_EOF_ACK, []);
        next := upTo + 1;
      }
    }
  }

  /** Over every run the child numbers what it submits from 1 on without a gap, and repeats nothing but
      its acknowledgement of the end. */
  lemma {:induction false} ControlsNumbered(first: Datagram, setup: Setup, log: seq<Io>) returns (upTo: nat)
    ensures Numbered(Run(Forked(first, setup), log), upTo)
  {
    if log == [] {
      ForkedExactly(first, setup);
      hide Forked, Decode;
      upTo := 1;
    } else {
      hide Step, Forked, Numbered;
      var before := ControlsNumbered(first, setup, log[..|log| - 1]);
      upTo := StepNumbers(Run(Forked(first, setup), log[..|log| - 1]), log[|log| - 1], before);
    }
  }
}
