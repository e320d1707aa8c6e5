/** Exactly when a transfer can never get stuck. */
module TransferCompletion {
  import opened Bytes
  import opened Codec
  import opened SystemCalls
  import opened Transfer
  import opened TransferSafety
  import opened TransferProgress
  import opened SenderTermination
  import W = SenderWindow
  import B = ReceiverBuffer
  import S = SenderMachine
  import SS = SenderSafety
  import R = ReceiverMachine
  import RS = ReceiverSafety

  predicate Receiving(st: State) {
    st.rcv.Some? && st.rcv.value.at.RecvData?
  }

  /** Both ends are live and the sender has a try left at what it is doing. */
  predicate Live(st: State) {
    match st.snd.at
    case SendFilename(tries) => tries < MAX_TRIES && (st.rcv.Some? ==> st.rcv.value.at.RecvData?)
    case PollFilename(tries) => if st.rcv.Some? then st.rcv.value.at.RecvData? else tries + 1 < MAX_TRIES
    case SendEof(tries) => tries < MAX_TRIES && st.rcv.Some? && !st.rcv.value.at.Done?
    case PollEof(tries) => tries + 1 < MAX_TRIES && st.rcv.Some? && !st.rcv.value.at.Done?
    case PollOneSec(got) => (got > 0 || st.snd.retryCount + 1 < MAX_TRIES) && Receiving(st)
    case CheckControls(got) => (got > 0 || st.snd.retryCount + 1 < MAX_TRIES) && Receiving(st)
    case Done => false
    case _ => Receiving(st)
  }

  /** For such a file no 32-bit sum of the transfer wraps, in any run. */
  lemma NothingWraps(cfg: S.Config, file: seq<seq<Byte>>, st: State)
    requires Reachable(cfg, file, st) && Numberable(cfg, file)
    ensures SS.Opened(st.snd) ==>
              st.snd.window.upper == st.snd.window.lower + st.snd.window.size && st.snd.window.current + 1 < TWO32
    ensures st.rcv.Some? && RS.Serving(st.rcv.value) ==>
              st.rcv.value.buffer.expected + st.rcv.value.buffer.size < TWO32
  {
    hide Reachable, Encode, Decode, RS.Disciplined, SS.OutboxGenuine;
    ReachableInv(cfg, file, st);
    assert |st.snd.chunks| <= |file|;
  }

  lemma FinishFromData(file: seq<seq<Byte>>, mark: Mark, a: State, st: State) returns (final: State)
    requires Reaches(file, mark, a, st) && Flowing(file, st) && st.snd.at == S.SendData
    ensures Reaches(file, mark, a, final) && Finished(final)
  {
    hide CanReach, Inv;
    var sent := SendEverything(file, mark, a, st);
    final := Teardown(file, mark, a, sent);
  }

  lemma FinishFromWait(file: seq<seq<Byte>>, mark: Mark, a: State, st: State) returns (final: State)
    requires Reaches(file, mark, a, st) && Live(st) && Numberable(st.snd.cfg, file)
    requires st.snd.at.PollOneSec? || st.snd.at.CheckControls?
    ensures Reaches(file, mark, a, final) && Finished(final)
  {
    hide CanReach, Agree, SS.WindowHoldsChunks, SS.OutboxGenuine;
    var data := st;
    if st.snd.at.got > 0 {
      data := Resume(file, mark, a, st);
    } else {
      var checked := st;
      if st.snd.at.PollOneSec? {
        Do(file, mark, a, st, AtSender(Timeout));
        checked := Next(st, AtSender(Timeout));
      }
      data := TimeoutMakesProgress(file, mark, a, checked);
    }
    final := FinishFromData(file, mark, a, data);
  }

  lemma FinishFrom(file: seq<seq<Byte>>, mark: Mark, a: State, st: State) returns (final: State)
    requires Reaches(file, mark, a, st) && Live(st) && Numberable(st.snd.cfg, file)
    requires SS.Opened(st.snd) || mark.fromChild == 0
    ensures Reaches(file, mark, a, final) && Finished(final)
  {
    hide CanReach, Agree, SS.WindowHoldsChunks, SS.OutboxGenuine, Encode, Decode;
    var next := st;
    if st.snd.at.PollFilename? && st.rcv.Some? {
      next := AwaitResponse(file, mark, a, st);
    } else if st.snd.at.PollFilename? || st.snd.at.PollEof? || st.snd.at.PollNow? {
      Do(file, mark, a, st, AtSender(Timeout));
      next := Next(st, AtSender(Timeout));
    }
    if next.snd.at.PollOneSec? || next.snd.at.CheckControls? {
      final := FinishFromWait(file, mark, a, next);
    } else if next.snd.at.SendEof? {
      final := Teardown(file, mark, a, next);
    } else {
      if next.snd.at.SendFilename? {
        next := Handshake(file, mark, a, next);
      }
      final := FinishFromData(file, mark, a, next);
    }
  }

  /** Some loss-free continuation completes the transfer. Nothing sent before is needed for it, except
      the child's response while the handshake lasts. */
  ghost predicate Completable(file: seq<seq<Byte>>, st: State) {
    exists final :: CanReach(file, MarkOf(st), st, final) && Finished(final)
      && final.rcv.value.buffer.output == Flatten(file)
  }

  lemma FinishedMeansComplete(file: seq<seq<Byte>>, st: State)
    requires Inv(file, st) && Finished(st)
    ensures st.rcv.Some? && st.rcv.value.buffer.output == Flatten(file)
  {
    hide Agree, SS.WindowHoldsChunks, SS.OutboxGenuine;
    FlushedMeansComplete(file, st);
  }

  /** From every reachable state with both ends live and a try left, the transfer can be completed. */
  lemma AlwaysCompletable(cfg: S.Config, file: seq<seq<Byte>>, st: State)
    requires Reachable(cfg, file, st) && Live(st) && Numberable(cfg, file)
    ensures Completable(file, st)
  {
    hide CanReach, Reachable, Live, Finished, SS.WindowHoldsChunks, SS.OutboxGenuine, SS.PlaceFits, Agree;
    ReachableInv(cfg, file, st);
    Stay(file, MarkOf(st), st);
    var final := FinishFrom(file, MarkOf(st), st, st);
    FinishedMeansComplete(file, final);
  }

  /** The window is down to nothing at both ends, and the next chunk is about to be read. */
  ghost predicate InStep(st: State, edge: nat) {
    && st.snd.at == S.SendData && SS.Opened(st.snd) && !st.snd.fileDone
    && st.snd.window.lower == st.snd.window.current == edge
    && st.rcv.Some? && st.rcv.value.at.RecvData?
    && st.rcv.value.buffer.expected == edge && st.rcv.value.buffer.live == map[]
  }

  lemma EdgeOpen(file: seq<seq<Byte>>, st: State, edge: U32)
    requires Inv(file, st) && InStep(st, edge) && edge + st.snd.cfg.windowSize < TWO32
    ensures S.MaySend(st.snd) && st.rcv.value.buffer.InWindow(edge) && |st.snd.chunks| == edge - 2
  {
    hide Encode, Decode, SS.OutboxGenuine, RS.Disciplined, RS.Genuine;
    W.OpenExactly(st.snd.window);
  }

  /** One chunk read, delivered and acknowledged. */
  lemma LockStep(file: seq<seq<Byte>>, mark: Mark, a: State, st: State, edge: U32) returns (final: State)
    requires Reaches(file, mark, a, st) && InStep(st, edge)
    requires edge + st.snd.cfg.windowSize < TWO32 && edge - 2 < |file|
    ensures Reaches(file, mark, a, final) && InStep(final, edge + 1) && final.snd.cfg == st.snd.cfg
  {
    hide CanReach, Encode, Decode, U32Of, SS.OutboxGenuine, RS.Inv, S.Step, SS.WindowHoldsChunks, SS.PlaceFits;
    EdgeOpen(file, st, edge);
    var data := NextRead(file, |st.snd.chunks|);
    assert data in file;
    SendStep(st.snd, data);
    Do(file, mark, a, st, AtSender(Read(data)));
    var sent := Next(st, AtSender(Read(data)));
    var acked := Exchange(file, mark, a, sent, edge);
    PollNowEnds(acked.snd);
    Do(file, mark, a, acked, AtSender(Timeout));
    final := Next(acked, AtSender(Timeout));
  }

  lemma {:induction false} LockStepTo(file: seq<seq<Byte>>, mark: Mark, a: State, st: State, edge: U32, goal: U32)
    returns (final: State)
    requires Reaches(file, mark, a, st) && InStep(st, edge) && edge <= goal
    requires goal - 2 <= |file| && goal + st.snd.cfg.windowSize <= TWO32
    ensures Reaches(file, mark, a, final) && InStep(final, goal) && final.snd.cfg == st.snd.cfg
    decreases goal - edge
  {
    hide CanReach, Inv, InStep;
    if edge == goal {
      final := st;
    } else {
      var next := LockStep(file, mark, a, st, edge);
      final := LockStepTo(file, mark, a, next, edge + 1, goal);
    }
  }

  lemma {:induction false} StaysClosed(file: seq<seq<Byte>>, st: State, acts: seq<Act>, final: State)
    requires Inv(file, st) && SS.ClosedForGood(st.snd) && (st.snd.at.Done? ==> st.snd.hadError)
    requires Leads(file, st, acts, final)
    ensures final.snd.at.Done? ==> final.snd.hadError
    decreases |acts|
  {
    hide Enabled, Agree, SS.WindowHoldsChunks, SS.OutboxGenuine, SS.PlaceFits, S.Step, R.Step, SS.ClosedForGood;
    if acts != [] {
      StepKeepsInv(file, st, acts[0]);
      if acts[0].AtSender? {
        SS.StepStaysClosed(st.snd, acts[0].io);
      }
      StaysClosed(file, Next(st, acts[0]), acts[1..], final);
    }
  }

  /** A file too long for the 32-bit numbers can lead the transfer, without a single loss, to a state
      with both ends live from which nothing at all completes it. */
  lemma TooLongGetsStuck(cfg: S.Config, file: seq<seq<Byte>>) returns (st: State)
    requires cfg.Checked() && S.FileFits(cfg, file) && !Numberable(cfg, file)
    ensures Reachable(cfg, file, st) && Live(st) && InStep(st, TWO32 - cfg.windowSize)
    ensures forall acts, final :: Leads(file, st, acts, final) ==> !Finished(final)
  {
    hide CanReach, SS.OutboxGenuine, Agree;
    var start, mark := Initial(cfg), Mark(0, 0);
    InitialInv(cfg, file);
    Stay(file, mark, start);
    var open := Handshake(file, mark, start, start);
    st := LockStepTo(file, mark, start, open, 2, TWO32 - cfg.windowSize);
    ReachedIsReachable(cfg, file, st);
    forall acts, final | Leads(file, st, acts, final)
      ensures !Finished(final)
    {
      StaysClosed(file, st, acts, final);
    }
  }

  lemma ReachedIsReachable(cfg: S.Config, file: seq<seq<Byte>>, st: State)
    requires cfg.Checked() && S.FileFits(cfg, file) && CanReach(file, Mark(0, 0), Initial(cfg), st)
    ensures Reachable(cfg, file, st)
  {
    hide SmoothLeads, Leads, S.FileFits;
    var acts :| SmoothLeads(file, Mark(0, 0), Initial(cfg), acts, st);
    SmoothIsRun(file, Mark(0, 0), Initial(cfg), acts, st);
  }

  /** The transfer can be completed from every reachable live state exactly when the file can be
      numbered: 2 + chunks + window size below 2^32. */
  lemma NeverStuckExactly(cfg: S.Config, file: seq<seq<Byte>>)
    requires cfg.Checked() && S.FileFits(cfg, file)
    ensures (forall st :: Reachable(cfg, file, st) && Live(st) ==> Completable(file, st)) <==> Numberable(cfg, file)
  {
    hide Reachable, Live;
    if Numberable(cfg, file) {
      forall st | Reachable(cfg, file, st) && Live(st)
        ensures Completable(file, st)
      {
        AlwaysCompletable(cfg, file, st);
      }
    } else {
      var st := TooLongGetsStuck(cfg, file);
      if Completable(file, st) {
        hide SmoothLeads, Leads;
        var final :| CanReach(file, MarkOf(st), st, final) && Finished(final);
        var acts :| SmoothLeads(file, MarkOf(st), st, acts, final);
        SmoothIsRun(file, MarkOf(st), st, acts, final);
        assert false;
      }
    }
  }

  ghost predicate NoResponseSince(outbox: seq<Datagram>, mark: nat) {
    forall i :: mark <= i < |outbox| ==> !RS.HasFlag(outbox[i], FLAG_FILENAME_RESP)
  }

  /** The child answers the filename when it is forked, and never again. */
  lemma ChildRespondsOnce(r: R.Receiver, io: Io)
    requires RS.Inv(r)
    ensures NoResponseSince(R.Step(r, io).outbox, |r.outbox|)
  {
    hide Encode, Decode, U32Of, U32Bytes, B.Buf.WriteReady, RS.Disciplined, RS.Genuine, RS.Latched;
  }

  lemma {:induction false} StaysUnopened(file: seq<seq<Byte>>, mark: Mark, st: State, acts: seq<Act>, final: State)
    requires Inv(file, st) && SmoothLeads(file, mark, st, acts, final)
    requires st.rcv.Some? && !SS.Opened(st.snd) && NoResponseSince(st.rcv.value.outbox, mark.fromChild)
    ensures Inv(file, final) && !SS.Opened(final.snd)
    decreases |acts|
  {
    hide Agree, SS.Inv, S.Step, R.Step, S.Awaits, R.Awaits, RS.HasFlag, Deliverable;
    if acts != [] {
      StepKeepsInv(file, st, acts[0]);
      match acts[0] {
        case AtSender(io) => SenderStepEffect(st.snd, io);
        case AtChild(io) => ChildOfAgreement(st.snd, st.rcv.value); ChildRespondsOnce(st.rcv.value, io);
        case AtServer(_, _) =>
      }
      StaysUnopened(file, mark, Next(st, acts[0]), acts[1..], final);
    }
  }

  lemma ChildOfAgreement(s: S.Sender, r: R.Receiver)
    requires Agree(s, r)
    ensures RS.Inv(r)
  {
  }

  /** What a transfer depends on while the handshake lasts: once there is a child, nothing completes the
      transfer without the response it has submitted already. */
  lemma ResponseNeeded(cfg: S.Config, file: seq<seq<Byte>>, st: State, fromSender: nat, final: State)
    requires Reachable(cfg, file, st) && st.rcv.Some? && !SS.Opened(st.snd)
    requires CanReach(file, Mark(fromSender, |st.rcv.value.outbox|), st, final)
    ensures !Finished(final)
  {
    hide Reachable, SmoothLeads, Agree, SS.WindowHoldsChunks, SS.OutboxGenuine;
    ReachableInv(cfg, file, st);
    var mark := Mark(fromSender, |st.rcv.value.outbox|);
    var acts :| SmoothLeads(file, mark, st, acts, final);
    StaysUnopened(file, mark, st, acts, final);
  }
}
