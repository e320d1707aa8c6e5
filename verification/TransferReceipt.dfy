/** Selective reject: whatever reaches the child is put to use, in whatever order it comes. */
module TransferReceipt {
  import opened Bytes
  import opened Codec
  import opened ReceiverBuffer
  import opened SenderTermination
  import opened SystemCalls
  import opened Transfer
  import opened TransferSafety
  import S = SenderMachine
  import SS = SenderSafety
  import R = ReceiverMachine
  import RL = ReceiverLaws
  import RS = ReceiverSafety

  /** The packet was written, or is kept to be written. */
  predicate Taken(b: Buf, n: U32) {
    n < b.expected || n in b.live
  }

  /** An intact data packet of this number was delivered to the child. */
  ghost predicate Arrived(acts: seq<Act>, n: U32) {
    exists act :: act in acts && Brings(act, n)
  }

  predicate Brings(act: Act, n: U32) {
    act.AtChild? && act.io.Received? && SS.CarriesData(act.io.datagram, n)
  }

  /** No event makes the child lose a packet it has taken. */
  lemma TakenStays(r: R.Receiver, io: Io, n: U32)
    requires RS.Inv(r) && R.Awaits(r, io) && RS.Serving(r) && r.buffer.expected + r.buffer.size < TWO32
    requires Taken(r.buffer, n)
    ensures RS.Serving(R.Step(r, io)) && Taken(R.Step(r, io).buffer, n)
  {
    hide Encode, Decode, R.HandleData, RS.Disciplined, RS.Genuine;
    if r.at.RecvData? && io.Received? && RS.HasFlag(io.datagram, FLAG_DATA) {
      DataTaken(r, io.datagram, n);
    }
  }

  /** A packet in the window, or one written before, is taken when it arrives, and no other is lost. */
  lemma DataTaken(r: R.Receiver, d: Datagram, n: U32)
    requires RS.Inv(r) && r.at.RecvData? && RS.Serving(r) && r.buffer.expected + r.buffer.size < TWO32
    requires RS.HasFlag(d, FLAG_DATA)
    ensures var t := R.Step(r, Received(d));
            && r.buffer.expected <= t.buffer.expected
            && (Taken(r.buffer, n) ==> Taken(t.buffer, n))
            && (Decode(d).value.seqNo == n && n < r.buffer.expected + r.buffer.size ==> Taken(t.buffer, n))
  {
    var m := Decode(d).value.seqNo;
    if m < r.buffer.expected || r.buffer.expected + r.buffer.size <= m {
      RL.OldOrFarIsAcknowledged(r, d);
    } else if m == r.buffer.expected {
      RL.ExpectedIsWritten(r, d);
    } else {
      RL.LaterIsKeptAndRequested(r, d);
    }
    hide R.Step, Decode, RS.Inv;
  }

  /** What the sender sent is in the window when it arrives. */
  lemma GenuineTaken(file: seq<seq<Byte>>, st: State, d: Datagram, n: U32)
    requires Inv(file, st) && Enabled(file, st, AtChild(Received(d))) && Numberable(st.snd.cfg, file)
    requires RS.Serving(st.rcv.value) && SS.CarriesData(d, n)
    ensures Taken(R.Step(st.rcv.value, Received(d)).buffer, n)
  {
    hide Encode, U32Of, Intact, R.Step, RS.Disciplined, RS.Genuine, RS.Latched;
    ArrivesAsSubmitted(st.snd.outbox, d);
    assert SS.Genuine(st.snd, d);
    var r := st.rcv.value;
    if r.at.RecvData? {
      DataTaken(r, d, n);
    } else {
      RL.WaitingAnswers(r, d);
    }
  }

  lemma StepTakes(file: seq<seq<Byte>>, st: State, act: Act, n: U32)
    requires Inv(file, st) && Enabled(file, st, act) && Numberable(st.snd.cfg, file)
    requires Brings(act, n) || (st.rcv.Some? && RS.Serving(st.rcv.value) && Taken(st.rcv.value.buffer, n))
    ensures var t := Next(st, act); t.rcv.Some? && RS.Serving(t.rcv.value) && Taken(t.rcv.value.buffer, n)
  {
    hide Encode, Decode, S.Step, R.Step, Taken, Deliverable, RS.Disciplined, RS.Genuine, RS.Latched;
    hide SS.WindowHoldsChunks;
    if act.AtChild? {
      var r := st.rcv.value;
      RS.ReceivingServes(r);
      if Brings(act, n) {
        GenuineTaken(file, st, act.io.datagram, n);
        RL.StepKeepsServing(r, act.io);
      } else {
        TakenStays(r, act.io, n);
      }
    }
  }

  lemma {:induction false} ArrivedIsTaken(file: seq<seq<Byte>>, st: State, acts: seq<Act>, final: State, n: U32)
    requires Inv(file, st) && Leads(file, st, acts, final) && Numberable(st.snd.cfg, file)
    requires Arrived(acts, n) || (st.rcv.Some? && RS.Serving(st.rcv.value) && Taken(st.rcv.value.buffer, n))
    ensures final.rcv.Some? && RS.Serving(final.rcv.value) && Taken(final.rcv.value.buffer, n)
    decreases |acts|
  {
    hide Inv, Enabled, Brings, Taken, S.Step, R.Step;
    if acts != [] {
      StepKeepsInv(file, st, acts[0]);
      if Brings(acts[0], n) || (st.rcv.Some? && RS.Serving(st.rcv.value) && Taken(st.rcv.value.buffer, n)) {
        StepTakes(file, st, acts[0], n);
      } else {
        assert Arrived(acts[1..], n);
      }
      LeadsKeepsConfig(file, st, [acts[0]], Next(st, acts[0]));
      ArrivedIsTaken(file, Next(st, acts[0]), acts[1..], final, n);
    }
  }

  /** Nothing needs to be sent twice: once every chunk below a number has arrived, each at least once
      and in any order, all of them are written. */
  lemma ArrivedIsWritten(cfg: S.Config, file: seq<seq<Byte>>, acts: seq<Act>, st: State, m: U32)
    requires cfg.Checked() && S.FileFits(cfg, file) && Numberable(cfg, file) && Leads(file, Initial(cfg), acts, st)
    requires 2 < m && forall n: U32 :: 2 <= n < m ==> Arrived(acts, n)
    ensures m - 2 <= |file| && st.rcv.Some?
    ensures m <= st.rcv.value.buffer.expected && Flatten(file[..m - 2]) <= st.rcv.value.buffer.output
  {
    hide Leads, Arrived, RS.Disciplined, RS.Genuine, RS.Latched, SS.Inv, Encode, Decode;
    InitialInv(cfg, file);
    LeadsKeepsInv(file, Initial(cfg), acts, st);
    forall n: U32 | 2 <= n < m
      ensures st.rcv.Some? && RS.Serving(st.rcv.value) && Taken(st.rcv.value.buffer, n)
    {
      ArrivedIsTaken(file, Initial(cfg), acts, st, n);
    }
    assert Taken(st.rcv.value.buffer, 2);
    var b := st.rcv.value.buffer;
    assert b.expected < m ==> Taken(b, b.expected);
    MirrorsGrow(b, st.snd.chunks, file);
    var written := file[..b.expected - 2];
    FlattenPrefix(written, m - 2);
    assert written[..m - 2] == file[..m - 2];
  }
}
