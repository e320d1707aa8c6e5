/** What every run of the receiving child keeps, whatever its peer or the channel may deliver to it. */
module ReceiverSafety {
  import opened Bytes
  import opened Codec
  import opened ReceiverBuffer
  import opened ReceiverMachine
  import opened SystemCalls

  predicate HasFlag(d: Datagram, flag: Byte) {
    Decode(d).Some? && Decode(d).value.flag == flag
  }

  /** The number an RR or SREJ carries. */
  function Value(d: Datagram): U32 {
    if Decode(d).Some? && |Decode(d).value.data| >= 4 then U32Of(Decode(d).value.data) else 0
  }

  /** The child has opened its output file and made its buffer. */
  predicate Serving(r: Receiver) {
    r.buffer.expected != 0
  }

  /** The reject latch is set exactly while a later packet waits, and names the expected packet. */
  ghost predicate Latched(b: Buf) {
    && (b.missingActive <==> b.live != map[])
    && (b.missingActive ==> b.missingSeq == b.expected)
  }

  ghost predicate Requested(outbox: seq<Datagram>, n: U32) {
    exists d :: d in outbox && HasFlag(d, FLAG_SREJ) && Value(d) == n
  }

  /** RR values never decrease, SREJ values strictly increase, and none is ahead of the expected
      number; that number itself has been requested exactly if the latch says so. */
  ghost predicate Disciplined(outbox: seq<Datagram>, expected: U32, requested: bool) {
    && (forall i, j :: 0 <= i < j < |outbox| && HasFlag(outbox[i], FLAG_RR) && HasFlag(outbox[j], FLAG_RR)
          ==> Value(outbox[i]) <= Value(outbox[j]))
    && (forall i, j :: 0 <= i < j < |outbox| && HasFlag(outbox[i], FLAG_SREJ) && HasFlag(outbox[j], FLAG_SREJ)
          ==> Value(outbox[i]) < Value(outbox[j]))
    && (forall d :: d in outbox && HasFlag(d, FLAG_RR) ==> Value(d) <= expected)
    && (forall d :: d in outbox && HasFlag(d, FLAG_SREJ)
          ==> Value(d) <= expected && (Value(d) == expected ==> requested))
    && (requested ==> Requested(outbox, expected))
  }

  /** What the child may have handed to the socket. */
  ghost predicate Genuine(r: Receiver, d: Datagram) {
    && Decode(d).Some? && d == Encode(Decode(d).value)
    && var p := Decode(d).value;
       || (p.flag == FLAG_FILENAME_RESP && (Serving(r) ==> p.data == [0]))
       || ((p.flag == FLAG_RR || p.flag == FLAG_SREJ) && |p.data| == 4 && Serving(r))
       || (p.flag == FLAG_EOF_ACK && Serving(r) && !r.at.RecvData?)
  }

  ghost predicate Inv(r: Receiver) {
    && (if Serving(r) then r.buffer.size == r.windowSize && r.buffer.Settled() && Latched(r.buffer)
        else r.buffer == NO_BUFFER && r.at == Done)
    && r.outbox != [] && HasFlag(r.outbox[0], FLAG_FILENAME_RESP)
    && (r.at.WaitOnDone? ==> HasFlag(r.lastAck, FLAG_EOF_ACK) && r.lastAck in r.outbox)
    && (forall d :: d in r.outbox ==> Genuine(r, d))
    && Disciplined(r.outbox, r.buffer.expected, r.buffer.missingActive)
  }

  lemma ReceivingServes(r: Receiver)
    requires Inv(r) && !r.at.Done?
    ensures Serving(r)
  {
    hide Disciplined, Genuine, Encode, Decode;
  }

  lemma DisciplineRaised(outbox: seq<Datagram>, e: U32, a: bool, f: U32)
    requires Disciplined(outbox, e, a) && e < f
    ensures Disciplined(outbox, f, false)
  {
  }

  lemma RrDisciplined(outbox: seq<Datagram>, d: Datagram, e: U32, a: bool)
    requires Disciplined(outbox, e, a) && HasFlag(d, FLAG_RR) && Value(d) == e
    ensures Disciplined(outbox + [d], e, a)
  {
  }

  lemma SrejDisciplined(outbox: seq<Datagram>, d: Datagram, e: U32)
    requires Disciplined(outbox, e, false) && HasFlag(d, FLAG_SREJ) && Value(d) == e
    ensures Disciplined(outbox + [d], e, true)
  {
  }

  lemma OtherDisciplined(outbox: seq<Datagram>, d: Datagram, e: U32, a: bool)
    requires Disciplined(outbox, e, a) && !HasFlag(d, FLAG_RR) && !HasFlag(d, FLAG_SREJ)
    ensures Disciplined(outbox + [d], e, a)
  {
  }

  lemma SendRrKeepsInv(r: Receiver)
    requires Inv(r) && Serving(r)
    ensures Inv(r.SendRr())
  {
    hide Encode, Decode, U32Of;
    RrDisciplined(r.outbox, Encode(Packet(r.controlSeq, FLAG_RR, U32Bytes(r.buffer.expected))),
      r.buffer.expected, r.buffer.missingActive);
  }

  /** The latch is free, the buffer settled, and a later packet waits: noting the reject and sending
      it restores the invariant. */
  lemma SendRejectKeepsInv(r: Receiver)
    requires Serving(r) && r.buffer.size == r.windowSize && r.buffer.Settled()
    requires !r.buffer.missingActive && r.buffer.live != map[] && r.at.RecvData?
    requires r.outbox != [] && HasFlag(r.outbox[0], FLAG_FILENAME_RESP)
    requires forall d :: d in r.outbox ==> Genuine(r, d)
    requires Disciplined(r.outbox, r.buffer.expected, false)
    ensures Inv(r.(buffer := r.buffer.RejectNoted()).SendReject())
  {
    hide Encode, Decode, U32Of;
    SrejDisciplined(r.outbox, Encode(Packet(r.controlSeq, FLAG_SREJ, U32Bytes(r.buffer.expected))),
      r.buffer.expected);
  }

  /** The buffer after the expected packet arrived, before any reject. */
  function Filled(b: Buf, data: seq<Byte>): Buf {
    b.Save(b.expected, data).RejectCleared(b.expected).WriteReady()
  }

  lemma FilledSettled(b: Buf, data: seq<Byte>)
    requires b.Settled() && Latched(b) && b.InWindow(b.expected)
    ensures var f := Filled(b, data);
            && f.Settled() && f.size == b.size && b.expected < f.expected && !f.missingActive
  {
    var c := b.Save(b.expected, data).RejectCleared(b.expected);
    InWindowExactly(b);
    DrainsMaximalRun(c);
    assert b.expected in c.live;
  }

  /** The RR for a packet that was written raises what may be acknowledged, and frees the latch. */
  lemma RaisedRr(r: Receiver, f: Buf)
    requires Inv(r) && r.at.RecvData?
    requires f.Settled() && f.size == r.buffer.size && r.buffer.expected < f.expected && !f.missingActive
    ensures var s := r.(buffer := f).SendRr();
            && (forall d :: d in s.outbox ==> Genuine(s, d))
            && Disciplined(s.outbox, f.expected, false)
            && s.outbox != [] && HasFlag(s.outbox[0], FLAG_FILENAME_RESP)
  {
    hide Encode, Decode, U32Of;
    DisciplineRaised(r.outbox, r.buffer.expected, r.buffer.missingActive, f.expected);
    RrDisciplined(r.outbox, Encode(Packet(r.controlSeq, FLAG_RR, U32Bytes(f.expected))), f.expected, false);
    hide Disciplined;
  }

  lemma AcceptExpectedKeepsInv(r: Receiver, data: seq<Byte>)
    requires Inv(r) && r.at.RecvData? && r.buffer.InWindow(r.buffer.expected)
    ensures Inv(HandleData(r, r.buffer.expected, data))
  {
    hide Encode, Decode, U32Of, Disciplined, Genuine, HasFlag, Buf.WriteReady;
    FilledSettled(r.buffer, data);
    var f := Filled(r.buffer, data);
    var s := r.(buffer := f).SendRr();
    RaisedRr(r, f);
    if f.live != map[] {
      assert f.HasLater() by {
        var m :| m in f.live;
      }
      SendRejectKeepsInv(s);
    }
  }

  lemma AcceptLaterKeepsInv(r: Receiver, n: U32, data: seq<Byte>)
    requires Inv(r) && r.at.RecvData? && r.buffer.expected < n && r.buffer.InWindow(n)
    ensures Inv(HandleData(r, n, data))
  {
    hide Encode, Decode, U32Of;
    InWindowExactly(r.buffer);
    var s := r.(buffer := r.buffer.Save(n, data));
    assert n in s.buffer.live;
    if !r.buffer.missingActive {
      SendRejectKeepsInv(s);
    }
  }

  lemma DataKeepsInv(r: Receiver, n: U32, data: seq<Byte>)
    requires Inv(r) && r.at.RecvData?
    ensures Inv(HandleData(r, n, data))
  {
    if n < r.buffer.expected || !r.buffer.InWindow(n) {
      SendRrKeepsInv(r);
    } else if n == r.buffer.expected {
      AcceptExpectedKeepsInv(r, data);
    } else {
      AcceptLaterKeepsInv(r, n, data);
    }
  }

  lemma EofKeepsInv(r: Receiver)
    requires Inv(r) && r.at.RecvData?
    ensures Inv(r.SendEofAck().(retryCount := 0, at := WaitOnDone))
  {
    hide Encode, Decode, U32Of, Latched;
    var d := Encode(Packet(r.controlSeq, FLAG_EOF_ACK, []));
    OtherDisciplined(r.outbox, d, r.buffer.expected, r.buffer.missingActive);
    hide Disciplined;
  }

  lemma ResendKeepsInv(r: Receiver)
    requires Inv(r) && r.at.WaitOnDone?
    ensures Inv(r.ResendLastAck())
  {
    hide Encode, Decode, U32Of, Latched;
    OtherDisciplined(r.outbox, r.lastAck, r.buffer.expected, r.buffer.missingActive);
    hide Disciplined;
  }

  lemma WaitKeepsInv(r: Receiver, io: Io)
    requires Inv(r) && r.at.WaitOnDone?
    ensures Inv(WaitStep(r, io))
  {
    hide Encode, Decode, U32Of, Latched, Disciplined;
    ResendKeepsInv(r);
    ResendKeepsInv(r.(retryCount := r.retryCount + 1));
  }

  lemma StepKeepsInv(r: Receiver, io: Io)
    requires Inv(r)
    ensures Inv(Step(r, io))
  {
    hide Encode, Decode, U32Of, Latched, Disciplined;
    if r.at.WaitOnDone? {
      WaitKeepsInv(r, io);
    } else if r.at.RecvData? && io.Received? && HasFlag(io.datagram, FLAG_DATA) {
      var p := Decode(io.datagram).value;
      DataKeepsInv(r, p.seqNo, p.data);
    } else if r.at.RecvData? && io.Received? && HasFlag(io.datagram, FLAG_EOF) {
      EofKeepsInv(r);
    }
  }

  lemma FirstDisciplined(d: Datagram, e: U32)
    requires HasFlag(d, FLAG_FILENAME_RESP)
    ensures Disciplined([d], e, false)
  {
    hide Decode;
    OtherDisciplined([], d, e, false);
    assert [] + [d] == [d];
  }

  lemma StartedInv(windowSize: U32, bufferSize: U32, outputName: seq<Byte>, setup: Setup)
    ensures Inv(Started(windowSize, bufferSize, outputName, setup))
  {
    hide Encode, Decode, U32Of, Disciplined;
    var d := Encode(Packet(1, FLAG_FILENAME_RESP, if setup.CannotOpen? then [1] else [0]));
    var r := Started(windowSize, bufferSize, outputName, setup);
    assert r.outbox == [d];
    FirstDisciplined(d, r.buffer.expected);
  }

  /** Every run of the child keeps the invariant, whatever is delivered to it: in particular RR values
      never decrease, every gap is requested once, and the latch is set exactly while a later
      packet waits. */
  lemma {:induction false} RunKeepsInv(first: Datagram, setup: Setup, log: seq<Io>)
    ensures Inv(Run(Forked(first, setup), log))
  {
    if log == [] {
      StartedInv(AnnouncedSize(first), AnnouncedBufferSize(first), AnnouncedName(first), setup);
    } else {
      RunKeepsInv(first, setup, log[..|log| - 1]);
      StepKeepsInv(Run(Forked(first, setup), log[..|log| - 1]), log[|log| - 1]);
    }
  }

  /** The order of what the child sends, in the order it sends it: no RR takes an earlier one back, and
      no packet is requested twice or after a later one. */
  lemma ControlsOrdered(first: Datagram, setup: Setup, log: seq<Io>, i: nat, j: nat)
    requires i < j < |Run(Forked(first, setup), log).outbox|
    ensures var sent := Run(Forked(first, setup), log).outbox;
            && (HasFlag(sent[i], FLAG_RR) && HasFlag(sent[j], FLAG_RR) ==> Value(sent[i]) <= Value(sent[j]))
            && (HasFlag(sent[i], FLAG_SREJ) && HasFlag(sent[j], FLAG_SREJ) ==> Value(sent[i]) < Value(sent[j]))
  {
    hide Encode, Decode, Forked, Run, AnnouncedSize;
    RunKeepsInv(first, setup, log);
  }

  /** While a later packet waits, and only then, the latch is set; it names exactly the packet that is
      missing, and that packet has been requested exactly if the latch is set. */
  lemma LatchNamesGap(first: Datagram, setup: Setup, log: seq<Io>)
    ensures var r := Run(Forked(first, setup), log);
            && (r.buffer.missingActive <==> r.buffer.HasLater())
            && (r.buffer.missingActive <==> Requested(r.outbox, r.buffer.expected))
            && (r.buffer.missingActive ==>
                r.buffer.missingSeq == r.buffer.expected && r.buffer.expected !in r.buffer.live)
  {
    hide Encode, Decode, Forked, Run, AnnouncedSize;
    RunKeepsInv(first, setup, log);
    var b := Run(Forked(first, setup), log).buffer;
    if b.live != map[] {
      var n :| n in b.live;
      assert n > b.expected;
    }
  }
}
