/** From where the transfer can still be completed, and how: without any datagram that was in flight
    before, as long as nothing more is lost. */
module TransferProgress {
  import opened Bytes
  import opened Codec
  import opened ErrorInjector
  import opened SystemCalls
  import opened Transfer
  import opened TransferSafety
  import W = SenderWindow
  import B = ReceiverBuffer
  import S = SenderMachine
  import SS = SenderSafety
  import R = ReceiverMachine
  import RS = ReceiverSafety

  /** How many datagrams each end had submitted before what a continuation may use. */
  datatype Mark = Mark(fromSender: nat, fromChild: nat)

  /** Nothing sent before may be used, except what the child answered to the filename while the sender
      still waits for that: the child answers it only once. */
  function MarkOf(st: State): Mark {
    Mark(|st.snd.outbox|, if st.rcv.Some? && SS.Opened(st.snd) then |st.rcv.value.outbox| else 0)
  }

  ghost predicate SubmittedSince(outbox: seq<Datagram>, mark: nat, d: Datagram) {
    exists i :: mark <= i < |outbox| && outbox[i] == d
  }

  /** A step of a loss-free continuation: what is delivered is intact and was submitted since the mark,
      the file can be read and opened, and the child does not time out. */
  ghost predicate Smooth(mark: Mark, st: State, act: Act) {
    match act
    case AtSender(io) =>
      !io.ReadFailed? &&
      (io.Received? ==> st.rcv.Some? && SubmittedSince(st.rcv.value.outbox, mark.fromChild, io.datagram))
    case AtServer(first, setup) => setup.Ready? && SubmittedSince(st.snd.outbox, mark.fromSender, first)
    case AtChild(io) => io.Received? && SubmittedSince(st.snd.outbox, mark.fromSender, io.datagram)
  }

  ghost predicate SmoothLeads(file: seq<seq<Byte>>, mark: Mark, st: State, acts: seq<Act>, final: State)
    decreases |acts|
  {
    st.snd.cfg.Checked() &&
    if acts == [] then final == st
    else Enabled(file, st, acts[0]) && Smooth(mark, st, acts[0])
         && SmoothLeads(file, mark, Next(st, acts[0]), acts[1..], final)
  }

  /** A loss-free continuation leads from `st` to `final`. */
  ghost predicate CanReach(file: seq<seq<Byte>>, mark: Mark, st: State, final: State) {
    exists acts :: SmoothLeads(file, mark, st, acts, final)
  }

  lemma {:induction false} SmoothJoin(file: seq<seq<Byte>>, mark: Mark,
                                     a: State, p: seq<Act>, b: State, q: seq<Act>, c: State)
    requires SmoothLeads(file, mark, a, p, b) && SmoothLeads(file, mark, b, q, c)
    ensures SmoothLeads(file, mark, a, p + q, c)
    decreases |p|
  {
    hide Next, Enabled, Smooth;
    if p == [] {
      assert p + q == q;
    } else {
      SmoothJoin(file, mark, Next(a, p[0]), p[1..], b, q, c);
      assert (p + q)[1..] == p[1..] + q;
    }
  }

  lemma {:induction false} SmoothIsRun(file: seq<seq<Byte>>, mark: Mark, a: State, p: seq<Act>, b: State)
    requires SmoothLeads(file, mark, a, p, b)
    ensures Leads(file, a, p, b)
    decreases |p|
  {
    hide Next, Enabled, Smooth;
    if p != [] {
      SmoothIsRun(file, mark, Next(a, p[0]), p[1..], b);
    }
  }

  lemma Stay(file: seq<seq<Byte>>, mark: Mark, st: State)
    requires st.snd.cfg.Checked()
    ensures CanReach(file, mark, st, st)
  {
    assert SmoothLeads(file, mark, st, [], st);
  }

  lemma Onward(file: seq<seq<Byte>>, mark: Mark, a: State, b: State, act: Act)
    requires CanReach(file, mark, a, b) && b.snd.cfg.Checked()
    requires Enabled(file, b, act) && Smooth(mark, b, act)
    requires Next(b, act).snd.cfg.Checked()
    ensures CanReach(file, mark, a, Next(b, act))
  {
    hide Next, Enabled, Smooth;
    var c := Next(b, act);
    var p :| SmoothLeads(file, mark, a, p, b);
    assert SmoothLeads(file, mark, c, [], c);
    assert [act][1..] == [];
    assert SmoothLeads(file, mark, b, [act], c);
    SmoothJoin(file, mark, a, p, b, [act], c);
  }

  lemma Do(file: seq<seq<Byte>>, mark: Mark, a: State, b: State, act: Act)
    requires Reaches(file, mark, a, b) && Enabled(file, b, act) && Smooth(mark, b, act)
    ensures Reaches(file, mark, a, Next(b, act))
  {
    hide CanReach, Smooth, Next, S.Awaits, R.Awaits, Deliverable, SS.WindowHoldsChunks, SS.OutboxGenuine, Agree;
    StepKeepsInv(file, b, act);
    OutboxesGrow(b, act);
    Onward(file, mark, a, b, act);
  }

  /** Every datagram submitted since the mark is still known, and more may follow. */
  ghost predicate Since(mark: Mark, st: State) {
    && mark.fromSender <= |st.snd.outbox|
    && mark.fromChild <= if st.rcv.Some? then |st.rcv.value.outbox| else 0
  }

  /** A loss-free continuation of `a` has come to `st`. */
  ghost predicate Reaches(file: seq<seq<Byte>>, mark: Mark, a: State, st: State) {
    CanReach(file, mark, a, st) && Inv(file, st) && Since(mark, st)
  }

  lemma OutboxesGrow(st: State, act: Act)
    requires st.snd.cfg.Checked() && (act.AtServer? ==> st.rcv.None?)
    ensures var t := Next(st, act);
            && |st.snd.outbox| <= |t.snd.outbox|
            && (st.rcv.Some? ==> t.rcv.Some? && |st.rcv.value.outbox| <= |t.rcv.value.outbox|)
  {
    hide S.Step, R.Step;
  }

  lemma JustSubmitted(outbox: seq<Datagram>, mark: nat, i: nat)
    requires mark <= i < |outbox|
    ensures SubmittedSince(outbox, mark, outbox[i]) && Deliverable(outbox, outbox[i])
  {
    assert MayCarry(outbox[i], outbox[i]);
  }

  /** The child receives, and the sequence numbers of the whole transfer stay below 2^32. */
  predicate Flowing(file: seq<seq<Byte>>, st: State) {
    st.rcv.Some? && st.rcv.value.at.RecvData? && 2 + |file| + st.snd.cfg.windowSize < TWO32
  }

  lemma SendStep(s: S.Sender, data: seq<Byte>)
    requires SS.Inv(s) && s.at == S.SendData && S.MaySend(s)
    ensures var t := S.Step(s, Read(data));
            if data == [] then t == s.(fileDone := true)
            else t == s.(window := t.window, chunks := s.chunks + [data], retryCount := 0, at := S.PollNow,
                         outbox := s.outbox + [SS.ChunkDatagram(t.chunks, s.window.current)])
                 && t.window.lower == s.window.lower && t.window.current == s.window.current + 1
                 && t.window.size == s.window.size && t.window.upper == s.window.upper
  {
    hide Encode, Decode, SS.OutboxGenuine;
    W.OpenExactly(s.window);
    W.AddSound(s.window, s.window.current, Encode(S.DataPacket(s.window.current, data)));
  }

  lemma PollNowEnds(s: S.Sender)
    requires s.cfg.Checked() && s.at == S.PollNow
    ensures S.Step(s, Timeout) == s.(at := S.SendData)
  {
  }

  /** Reading and sending until the window is full or the file is read. */
  lemma {:induction false} SendUntilStalled(file: seq<seq<Byte>>, mark: Mark, a: State, st: State)
    returns (final: State)
    requires Reaches(file, mark, a, st) && Flowing(file, st) && st.snd.at == S.SendData
    ensures Reaches(file, mark, a, final) && Flowing(file, final)
    ensures final.rcv == st.rcv && final.snd.window.lower == st.snd.window.lower
    ensures final.snd.cfg == st.snd.cfg
    ensures final.snd.at == S.SendEof(0) || (final.snd.at == S.PollOneSec(0) && final.snd.retryCount == 0)
    decreases |file| - |st.snd.chunks| + (if st.snd.fileDone then 0 else 1)
  {
    hide CanReach, Encode, Decode, U32Of, SS.OutboxGenuine, SS.WindowHoldsChunks, RS.Inv;
    if S.MaySend(st.snd) {
      var data := NextRead(file, |st.snd.chunks|);
      assert |st.snd.chunks| < |file| ==> data in file;
      SendStep(st.snd, data);
      Do(file, mark, a, st, AtSender(Read(data)));
      var next := Next(st, AtSender(Read(data)));
      if |st.snd.chunks| < |file| {
        PollNowEnds(next.snd);
        Do(file, mark, a, next, AtSender(Timeout));
        next := Next(next, AtSender(Timeout));
      }
      final := SendUntilStalled(file, mark, a, next);
    } else {
      Do(file, mark, a, st, AtSender(Tau));
      final := Next(st, AtSender(Tau));
    }
  }

  /** The child's answer to a packet at or below the expected one is first of all an RR that is beyond
      that packet. */
  lemma ChildAnswers(r: R.Receiver, n: U32, data: seq<Byte>)
    requires RS.Inv(r) && r.at.RecvData? && n <= r.buffer.expected
    requires n == r.buffer.expected ==> r.buffer.InWindow(n)
    ensures var t := R.HandleData(r, n, data);
            && t.at.RecvData? && n < t.buffer.expected
            && |r.outbox| < |t.outbox|
            && t.outbox[|r.outbox|] == Encode(Packet(r.controlSeq, FLAG_RR, U32Bytes(t.buffer.expected)))
            && (n == r.buffer.expected && r.buffer.live == map[] ==>
                t.buffer.expected == n + 1 && t.buffer.live == map[])
  {
    hide Encode, Decode, U32Of, U32Bytes, RS.Genuine, RS.Disciplined;
    if n == r.buffer.expected {
      RS.FilledSettled(r.buffer, data);
      if r.buffer.live == map[] {
        var c := r.buffer.Save(n, data).RejectCleared(n);
        B.DrainsMaximalRun(c);
        assert c.WriteReady() == c.WriteOne();
      }
    }
  }

  /** A chunk that is sent and expected fits the receive window. */
  lemma NextChunkFits(file: seq<seq<Byte>>, st: State)
    requires Inv(file, st) && Flowing(file, st)
    ensures var b := st.rcv.value.buffer;
            b.expected < 2 + |st.snd.chunks| ==> b.InWindow(b.expected)
  {
    hide Encode, Decode, SS.OutboxGenuine, SS.WindowHoldsChunks, SS.PlaceFits;
    B.InWindowExactly(st.rcv.value.buffer);
    assert |st.snd.chunks| <= |file|;
  }

  /** The child receives a chunk just submitted, and the sender the RR it answers with. */
  lemma Exchange(file: seq<seq<Byte>>, mark: Mark, a: State, st: State, n: U32) returns (final: State)
    requires Reaches(file, mark, a, st) && mark.fromSender < |st.snd.outbox|
    requires st.rcv.Some? && st.rcv.value.at.RecvData?
    requires 2 <= n < 2 + |st.snd.chunks| && n <= st.rcv.value.buffer.expected
    requires n == st.rcv.value.buffer.expected ==> st.rcv.value.buffer.InWindow(n)
    requires st.snd.outbox[|st.snd.outbox| - 1] == SS.ChunkDatagram(st.snd.chunks, n)
    requires st.snd.at == S.PollNow || st.snd.at == S.PollOneSec(0)
    ensures Reaches(file, mark, a, final)
    ensures final.rcv.Some? && final.rcv.value.at.RecvData?
    ensures final.snd == st.snd.(window := st.snd.window.Rr(final.rcv.value.buffer.expected),
                                 at := if st.snd.at.PollNow? then S.PollNow else S.PollOneSec(1))
    ensures n < final.rcv.value.buffer.expected
    ensures n == st.rcv.value.buffer.expected && st.rcv.value.buffer.live == map[] ==>
            final.rcv.value.buffer.expected == n + 1 && final.rcv.value.buffer.live == map[]
  {
    hide CanReach, Encode, Decode, U32Of, U32Bytes, SS.WindowHoldsChunks, SS.OutboxGenuine, RS.Inv;
    var d := SS.ChunkDatagram(st.snd.chunks, n);
    JustSubmitted(st.snd.outbox, mark.fromSender, |st.snd.outbox| - 1);
    ChildAnswers(st.rcv.value, n, st.snd.chunks[n - 2]);
    Do(file, mark, a, st, AtChild(Received(d)));
    var answered := Next(st, AtChild(Received(d)));
    JustSubmitted(answered.rcv.value.outbox, mark.fromChild, |st.rcv.value.outbox|);
    var rr := answered.rcv.value.outbox[|st.rcv.value.outbox|];
    Do(file, mark, a, answered, AtSender(Received(rr)));
    final := Next(answered, AtSender(Received(rr)));
  }

  lemma ResendStep(s: S.Sender)
    requires SS.Inv(s) && s.at == S.CheckControls(0) && s.retryCount + 1 < MAX_TRIES
    requires s.window.lower + s.window.size < TWO32
    ensures 2 <= s.window.lower < 2 + |s.chunks|
    ensures S.Step(s, Tau) == s.(retryCount := s.retryCount + 1, at := S.PollOneSec(0),
                                 outbox := s.outbox + [SS.ChunkDatagram(s.chunks, s.window.lower)])
  {
    hide Encode, Decode, SS.OutboxGenuine;
    W.OpenExactly(s.window);
    assert s.window.lower in s.window.live;
  }

  /** After a control packet was counted, sending goes on with all retries restored. */
  lemma Resume(file: seq<seq<Byte>>, mark: Mark, a: State, st: State) returns (final: State)
    requires Reaches(file, mark, a, st) && Flowing(file, st)
    requires (st.snd.at.PollOneSec? || st.snd.at.CheckControls?) && st.snd.at.got > 0
    ensures Reaches(file, mark, a, final) && Flowing(file, final)
    ensures final == st.(snd := st.snd.(at := S.SendData, retryCount := 0))
  {
    hide CanReach, Encode, Decode, SS.WindowHoldsChunks, SS.OutboxGenuine, SS.PlaceFits, Agree;
    var checked := st;
    if st.snd.at.PollOneSec? {
      Do(file, mark, a, st, AtSender(Timeout));
      checked := Next(st, AtSender(Timeout));
    }
    Do(file, mark, a, checked, AtSender(Tau));
    final := Next(checked, AtSender(Tau));
  }

  /** No deadlock: when the wait for acknowledgements times out and a retry is left, the packet sent
      again and its answer raise the lower edge of the window. */
  lemma TimeoutMakesProgress(file: seq<seq<Byte>>, mark: Mark, a: State, st: State) returns (final: State)
    requires Reaches(file, mark, a, st) && Flowing(file, st)
    requires st.snd.at == S.CheckControls(0) && st.snd.retryCount + 1 < MAX_TRIES
    ensures Reaches(file, mark, a, final) && Flowing(file, final)
    ensures final.snd.at == S.SendData && final.snd.retryCount == 0 && final.snd.cfg == st.snd.cfg
    ensures st.snd.window.lower < final.snd.window.lower
  {
    hide CanReach, Encode, Decode, SS.OutboxGenuine, RS.Inv;
    ResendStep(st.snd);
    NextChunkFits(file, st);
    RS.ReceivingServes(st.rcv.value);
    hide SS.WindowHoldsChunks, S.Step;
    Do(file, mark, a, st, AtSender(Tau));
    var resent := Next(st, AtSender(Tau));
    var acked := Exchange(file, mark, a, resent, st.snd.window.lower);
    final := Resume(file, mark, a, acked);
  }

  /** Sending and timing out in turn until everything is acknowledged. */
  lemma {:induction false} SendEverything(file: seq<seq<Byte>>, mark: Mark, a: State, st: State) returns (final: State)
    requires Reaches(file, mark, a, st) && Flowing(file, st) && st.snd.at == S.SendData
    ensures Reaches(file, mark, a, final) && Flowing(file, final)
    ensures final.snd.at == S.SendEof(0)
    decreases 2 + |file| - st.snd.window.lower
  {
    hide CanReach, Encode, Decode, SS.OutboxGenuine, RS.Inv;
    var stalled := SendUntilStalled(file, mark, a, st);
    if stalled.snd.at == S.SendEof(0) {
      final := stalled;
    } else {
      assert stalled.snd.window.lower <= 2 + |file|;
      Do(file, mark, a, stalled, AtSender(Timeout));
      var onward := TimeoutMakesProgress(file, mark, a, Next(stalled, AtSender(Timeout)));
      assert onward.snd.window.lower <= 2 + |file|;
      final := SendEverything(file, mark, a, onward);
    }
  }

  /** The transfer is over at both ends, and rcopy reports success. */
  predicate Finished(st: State) {
    st.snd.at.Done? && !st.snd.hadError && st.rcv.Some? && st.rcv.value.at.Done?
  }

  /** The end of the file and its acknowledgement. */
  lemma EofExchange(file: seq<seq<Byte>>, mark: Mark, a: State, st: State) returns (final: State)
    requires Reaches(file, mark, a, st)
    requires st.snd.at.SendEof? && st.snd.at.tries < MAX_TRIES && st.rcv.Some? && !st.rcv.value.at.Done?
    ensures Reaches(file, mark, a, final)
    ensures final.snd.at.PollEof? && final.rcv.Some? && final.rcv.value.at.WaitOnDone?
    ensures mark.fromChild < |final.rcv.value.outbox|
    ensures S.IsEofAck(final.rcv.value.outbox[|final.rcv.value.outbox| - 1])
  {
    hide CanReach, Encode, Decode, SS.OutboxGenuine, SS.WindowHoldsChunks, RS.Disciplined;
    Do(file, mark, a, st, AtSender(Tau));
    var sent := Next(st, AtSender(Tau));
    var eof := sent.snd.outbox[|st.snd.outbox|];
    JustSubmitted(sent.snd.outbox, mark.fromSender, |st.snd.outbox|);
    Do(file, mark, a, sent, AtChild(Received(eof)));
    final := Next(sent, AtChild(Received(eof)));
  }

  lemma Teardown(file: seq<seq<Byte>>, mark: Mark, a: State, st: State) returns (final: State)
    requires Reaches(file, mark, a, st)
    requires st.snd.at.SendEof? && st.snd.at.tries < MAX_TRIES && st.rcv.Some? && !st.rcv.value.at.Done?
    ensures Reaches(file, mark, a, final) && Finished(final)
  {
    hide CanReach, Encode, Decode, SS.OutboxGenuine, SS.WindowHoldsChunks, RS.Inv, Agree;
    var acked := EofExchange(file, mark, a, st);
    var ack := acked.rcv.value.outbox[|acked.rcv.value.outbox| - 1];
    JustSubmitted(acked.rcv.value.outbox, mark.fromChild, |acked.rcv.value.outbox| - 1);
    Do(file, mark, a, acked, AtSender(Received(ack)));
    var done := Next(acked, AtSender(Received(ack)));
    var last := done.snd.outbox[|acked.snd.outbox|];
    JustSubmitted(done.snd.outbox, mark.fromSender, |acked.snd.outbox|);
    Do(file, mark, a, done, AtChild(Received(last)));
    final := Next(done, AtChild(Received(last)));
  }

  /** The handshake is over at both ends, and no chunk has been read. */
  ghost predicate BothOpen(cfg: S.Config, st: State) {
    && st.snd.cfg == cfg && st.snd.at == S.SendData && !st.snd.fileDone && st.snd.chunks == []
    && st.snd.window == W.InitialWin(cfg.windowSize, 2)
    && st.rcv.Some? && st.rcv.value.at.RecvData?
    && st.rcv.value.buffer.expected == 2 && st.rcv.value.buffer.live == map[]
  }

  /** The sender waits for the child's response, which has been submitted. */
  lemma AwaitResponse(file: seq<seq<Byte>>, mark: Mark, a: State, st: State) returns (final: State)
    requires Reaches(file, mark, a, st) && mark.fromChild == 0
    requires st.snd.at.PollFilename? && st.rcv.Some? && st.rcv.value.at.RecvData?
    ensures Reaches(file, mark, a, final) && BothOpen(st.snd.cfg, final)
  {
    hide CanReach, Encode, Decode, SS.OutboxGenuine, RS.Disciplined;
    var response := st.rcv.value.outbox[0];
    JustSubmitted(st.rcv.value.outbox, 0, 0);
    assert RS.Genuine(st.rcv.value, response);
    Do(file, mark, a, st, AtSender(Received(response)));
    final := Next(st, AtSender(Received(response)));
  }

  /** The filename goes out, and the server forks the child. */
  lemma ForkChild(file: seq<seq<Byte>>, mark: Mark, a: State, st: State) returns (final: State)
    requires Reaches(file, mark, a, st)
    requires st.snd.at.SendFilename? && st.snd.at.tries < MAX_TRIES && st.rcv.None?
    ensures Reaches(file, mark, a, final) && final.snd.cfg == st.snd.cfg
    ensures final.snd.at.PollFilename? && final.rcv.Some? && final.rcv.value.at.RecvData?
  {
    hide CanReach, Encode, Decode, SS.OutboxGenuine, RS.Disciplined, R.AnnouncedSize;
    Do(file, mark, a, st, AtSender(Tau));
    var asked := Next(st, AtSender(Tau));
    var name := asked.snd.outbox[|st.snd.outbox|];
    JustSubmitted(asked.snd.outbox, mark.fromSender, |st.snd.outbox|);
    AnnouncesSize(st.snd.cfg);
    Do(file, mark, a, asked, AtServer(name, R.Ready));
    final := Next(asked, AtServer(name, R.Ready));
  }

  /** The filename, the fork if there is no child yet, and the response. */
  lemma Handshake(file: seq<seq<Byte>>, mark: Mark, a: State, st: State) returns (final: State)
    requires Reaches(file, mark, a, st) && mark.fromChild == 0
    requires st.snd.at.SendFilename? && st.snd.at.tries < MAX_TRIES
    requires st.rcv.Some? ==> st.rcv.value.at.RecvData?
    ensures Reaches(file, mark, a, final) && BothOpen(st.snd.cfg, final)
  {
    hide CanReach, Encode, Decode, SS.OutboxGenuine, RS.Inv;
    var asked := st;
    if st.rcv.None? {
      asked := ForkChild(file, mark, a, st);
    } else {
      Do(file, mark, a, st, AtSender(Tau));
      asked := Next(st, AtSender(Tau));
    }
    final := AwaitResponse(file, mark, a, asked);
  }
}
