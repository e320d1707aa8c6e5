/** What every run of the sender keeps, whatever its peer or the channel may deliver to it. */
module SenderSafety {
  import opened Bytes
  import opened Codec
  import opened SenderWindow
  import opened SenderMachine
  import opened SystemCalls

  /** The handshake is over. */
  predicate Opened(s: Sender) {
    s.window.size != 0
  }

  /** Everything was read, sent and acknowledged. */
  predicate Flushed(s: Sender) {
    Opened(s) && s.fileDone && s.window.IsEmpty()
  }

  /** In `wait_on_ack_state` nothing can be sent, and something is unacknowledged. */
  predicate Stalled(s: Sender) {
    !MaySend(s) && !(s.fileDone && s.window.IsEmpty())
  }

  /** The datagram that carries chunk number `n`; the first chunk has number 2. */
  function ChunkDatagram(chunks: seq<seq<Byte>>, n: U32): Datagram
    requires 2 <= n < 2 + |chunks|
  {
    Encode(DataPacket(n, chunks[n - 2]))
  }

  ghost predicate GenuinePacket(s: Sender, p: Packet)
    requires s.cfg.Checked()
  {
    || p == FilenamePacket(s.cfg)
    || (p.flag == FLAG_DATA && 2 <= p.seqNo < 2 + |s.chunks| && p == DataPacket(p.seqNo, s.chunks[p.seqNo - 2]))
    || (p.flag == FLAG_EOF && p == EofPacket(s.window.current) && Flushed(s)
        && (s.at.SendEof? || s.at.PollEof? || s.at.Done?))
    || (p.flag == FLAG_DONE && p == DonePacket(s.window.current) && Flushed(s) && s.at.Done?)
  }

  /** What the sender may have handed to the socket. */
  ghost predicate Genuine(s: Sender, d: Datagram)
    requires s.cfg.Checked()
  {
    Decode(d).Some? && d == Encode(Decode(d).value) && GenuinePacket(s, Decode(d).value)
  }

  /** The window keeps, under each number not yet acknowledged, the datagram first sent under it. */
  ghost predicate WindowHoldsChunks(s: Sender) {
    && s.window.Sound()
    && s.window.size == s.cfg.windowSize
    && 2 <= s.window.lower
    && s.window.current == 2 + |s.chunks|
    && (forall n: U32 :: n in s.window.live ==> s.window.live[n] == ChunkDatagram(s.chunks, n))
  }

  ghost predicate PlaceFits(s: Sender) {
    match s.at
    case SendFilename(tries) => !Opened(s) && tries <= MAX_TRIES
    case PollFilename(tries) => !Opened(s) && tries < MAX_TRIES
    case SendData => Opened(s) && s.retryCount == 0
    case PollNow => Opened(s) && s.retryCount == 0
    case PollOneSec(got) => Waiting(s, got)
    case CheckControls(got) => Waiting(s, got)
    case SendEof(tries) => Flushed(s) && tries <= MAX_TRIES
    case PollEof(tries) => Flushed(s) && tries < MAX_TRIES
    case Done => s.hadError || Flushed(s)
  }

  ghost predicate Waiting(s: Sender, got: nat) {
    && Opened(s)
    && s.retryCount < MAX_TRIES
    && (got == 0 ==> Stalled(s) && (s.window.IsEmpty() ==> s.retryCount == 0))
  }

  ghost predicate OutboxGenuine(s: Sender)
    requires s.cfg.Checked()
  {
    && (forall d :: d in s.outbox ==> Genuine(s, d))
    && (forall n: U32 :: 2 <= n < 2 + |s.chunks| ==> ChunkDatagram(s.chunks, n) in s.outbox)
  }

  /** The invariant of every run. */
  ghost predicate Inv(s: Sender) {
    && s.cfg.Checked()
    && (if Opened(s) then WindowHoldsChunks(s)
        else s.window == NO_WINDOW && s.chunks == [] && !s.fileDone && s.controlSeq == FIRST_SEQ && s.retryCount == 0)
    && PlaceFits(s)
    && (s.hadError ==> s.at == Done)
    && OutboxGenuine(s)
  }

  predicate Ending(s: Sender) {
    s.at.SendEof? || s.at.PollEof? || s.at.Done?
  }

  /** What was genuine stays so while chunks are only added and an end once reached is kept. */
  lemma GenuineStays(s: Sender, t: Sender)
    requires s.cfg.Checked() && t.cfg == s.cfg
    requires s.chunks <= t.chunks
    requires Ending(s) && Flushed(s) ==> Ending(t) && (s.at.Done? ==> t.at.Done?) && t.window == s.window && t.fileDone
    ensures forall d :: Genuine(s, d) ==> Genuine(t, d)
  {
    hide Encode, Decode, U32Of;
  }

  lemma RrKeeps(s: Sender, r: U32)
    requires s.cfg.Checked() && Opened(s) && WindowHoldsChunks(s)
    ensures WindowHoldsChunks(s.(window := s.window.Rr(r)))
    ensures s.window.lower <= s.window.Rr(r).lower
  {
    hide Encode;
    RrExactly(s.window, r);
  }

  lemma ResendKeeps(s: Sender, n: U32)
    requires s.cfg.Checked() && WindowHoldsChunks(s) && OutboxGenuine(s) && n in s.window.live && !Ending(s)
    ensures WindowHoldsChunks(s.Submit(s.window.live[n])) && OutboxGenuine(s.Submit(s.window.live[n]))
  {
    hide Encode, Genuine;
    GenuineStays(s, s.Submit(s.window.live[n]));
    assert s.window.live[n] == ChunkDatagram(s.chunks, n);
  }

  lemma ControlKeeps(s: Sender, d: Datagram)
    requires s.cfg.Checked() && Opened(s) && WindowHoldsChunks(s) && OutboxGenuine(s) && !Ending(s)
    ensures var t := Control(s, d);
            && WindowHoldsChunks(t) && OutboxGenuine(t)
            && t == s.(window := t.window, outbox := t.outbox)
            && s.window.lower <= t.window.lower
            && (Counted(d) == 0 ==> t == s)
  {
    hide Encode, Decode, U32Of, Genuine, WindowHoldsChunks, Win.Rr;
    var t := Control(s, d);
    if Decode(d).Some? && |Decode(d).value.data| >= 4 {
      var n := U32Of(Decode(d).value.data);
      RrKeeps(s, n);
      if n in s.window.live {
        ResendKeeps(s, n);
      }
    }
    GenuineStays(s, t);
  }

  lemma FilenameKeepsInv(s: Sender, io: Io)
    requires Inv(s) && (s.at.SendFilename? || s.at.PollFilename?)
    ensures Inv(FilenameStep(s, io))
  {
    hide Encode, Decode, U32Of;
    GenuineStays(s, FilenameStep(s, io));
  }

  lemma SendChunkKeepsInv(s: Sender, data: seq<Byte>)
    requires Inv(s) && s.at.SendData? && MaySend(s)
    ensures Inv(SendChunk(s, data))
  {
    hide Encode, Decode, U32Of;
    var n := s.window.current;
    var d := Encode(DataPacket(n, data));
    var t := SendChunk(s, data);
    AddSound(s.window, n, d);
    OpenExactly(s.window);
    GenuineStays(s, t);
    assert ChunkDatagram(t.chunks, n) == d;
    forall m: U32 | 2 <= m < 2 + |t.chunks|
      ensures ChunkDatagram(t.chunks, m) in t.outbox
    {
      assert m == n || ChunkDatagram(t.chunks, m) == ChunkDatagram(s.chunks, m);
    }
  }

  lemma DataKeepsInv(s: Sender, io: Io)
    requires Inv(s) && (s.at.SendData? || s.at.PollNow?)
    ensures Inv(DataStep(s, io))
  {
    hide Encode, Decode, U32Of, Genuine, GenuinePacket;
    if s.at.PollNow? && io.Received? {
      ControlKeeps(s, io.datagram);
    } else if s.at.SendData? && MaySend(s) && io.Read? && io.data != [] {
      SendChunkKeepsInv(s, io.data);
    } else {
      GenuineStays(s, DataStep(s, io));
    }
  }

  lemma PollKeepsInv(s: Sender, io: Io)
    requires Inv(s) && s.at.PollOneSec?
    ensures Inv(WaitStep(s, io))
  {
    hide Encode, Decode, U32Of;
    if io.Received? {
      ControlKeeps(s, io.datagram);
      GenuineStays(Control(s, io.datagram), WaitStep(s, io));
    } else {
      GenuineStays(s, WaitStep(s, io));
    }
  }

  lemma CheckKeepsInv(s: Sender, io: Io)
    requires Inv(s) && s.at.CheckControls?
    ensures Inv(WaitStep(s, io))
  {
    hide Encode, Decode, U32Of, Genuine, GenuinePacket;
    GenuineStays(s, WaitStep(s, io));
    assert s.window.Lowest().Some? ==> s.window.Lowest().value == ChunkDatagram(s.chunks, s.window.lower);
  }

  lemma EofKeepsInv(s: Sender, io: Io)
    requires Inv(s) && (s.at.SendEof? || s.at.PollEof?)
    ensures Inv(EofStep(s, io))
  {
    hide Encode, Decode, U32Of;
    GenuineStays(s, EofStep(s, io));
  }

  lemma StepKeepsInv(s: Sender, io: Io)
    requires Inv(s)
    ensures Inv(Step(s, io))
  {
    hide Encode, Decode, U32Of;
    match s.at
    case SendFilename(_) => FilenameKeepsInv(s, io);
    case PollFilename(_) => FilenameKeepsInv(s, io);
    case SendData => DataKeepsInv(s, io);
    case PollNow => DataKeepsInv(s, io);
    case PollOneSec(_) => PollKeepsInv(s, io);
    case CheckControls(_) => CheckKeepsInv(s, io);
    case SendEof(_) => EofKeepsInv(s, io);
    case PollEof(_) => EofKeepsInv(s, io);
    case Done =>
  }

  /** Every run of the sender keeps the invariant, whatever is delivered to it. */
  lemma {:induction false} RunKeepsInv(cfg: Config, log: seq<Io>)
    requires cfg.Checked()
    ensures Inv(Run(InitialSender(cfg), log))
  {
    if log != [] {
      RunKeepsInv(cfg, log[..|log| - 1]);
      StepKeepsInv(Run(InitialSender(cfg), log[..|log| - 1]), log[|log| - 1]);
    }
  }

  predicate CarriesData(d: Datagram, n: U32) {
    Decode(d).Some? && Decode(d).value.flag == FLAG_DATA && Decode(d).value.seqNo == n
  }

  /** Any two datagrams the sender ever submits as data of one number are the same bytes. */
  lemma RetransmissionsIdentical(cfg: Config, log: seq<Io>, n: U32)
    requires cfg.Checked()
    ensures var s := Run(InitialSender(cfg), log);
            forall d, e :: d in s.outbox && e in s.outbox && CarriesData(d, n) && CarriesData(e, n) ==> d == e
  {
    hide Encode, U32Of, Intact;
    RunKeepsInv(cfg, log);
    var s := Run(InitialSender(cfg), log);
    hide Run, WindowHoldsChunks, PlaceFits;
    forall d, e | d in s.outbox && e in s.outbox && CarriesData(d, n) && CarriesData(e, n)
      ensures d == e
    {
      assert Genuine(s, d) && Genuine(s, e);
      assert d == ChunkDatagram(s.chunks, n);
    }
  }

  /** A request for a packet not yet acknowledged is always answered with the very datagram that was
      sent under that number before; a request for any other number, or too short to hold one, is not. */
  lemma RejectAnsweredExactly(cfg: Config, log: seq<Io>, d: Datagram)
    requires cfg.Checked() && Decode(d).Some? && Decode(d).value.flag == FLAG_SREJ
    ensures var s := Run(InitialSender(cfg), log);
            var data := Decode(d).value.data;
            if |data| >= 4 && s.window.lower <= U32Of(data) < s.window.current
            then exists e :: e in s.outbox && CarriesData(e, U32Of(data)) && Control(s, d) == s.Submit(e)
            else Control(s, d) == s
  {
    hide Encode, U32Of, Intact;
    RunKeepsInv(cfg, log);
    var s := Run(InitialSender(cfg), log);
    if |Decode(d).value.data| >= 4 {
      var n := U32Of(Decode(d).value.data);
      if s.window.lower <= n < s.window.current {
        assert n in s.window.live;
        assert ChunkDatagram(s.chunks, n) in s.outbox && CarriesData(ChunkDatagram(s.chunks, n), n);
      }
    }
  }

  /** When the wait for acknowledgements times out there is a packet to send again, unless the window
      is empty; and that takes an upper limit that has wrapped before the end of the file. */
  lemma NothingToResendIfWrapped(cfg: Config, log: seq<Io>)
    requires cfg.Checked()
    ensures var s := Run(InitialSender(cfg), log);
            s.at == CheckControls(0) ==>
              && (s.window.Lowest() == None <==> s.window.IsEmpty())
              && (s.window.IsEmpty() <==> Drained(s))
  {
    RunKeepsInv(cfg, log);
    var s := Run(InitialSender(cfg), log);
    if Opened(s) {
      OpenExactly(s.window);
    }
  }

  /** The window is closed although the file has not been read to its end. */
  predicate ClosedForGood(s: Sender) {
    Opened(s) && !s.fileDone && s.window.lower + s.window.size >= TWO32
  }

  /** Once the upper limit has wrapped before the end of the file was read, nothing that happens
      afterwards lets the sender finish without an error. */
  lemma StepStaysClosed(s: Sender, io: Io)
    requires Inv(s) && ClosedForGood(s)
    ensures ClosedForGood(Step(s, io)) && (Step(s, io).at.Done? ==> Step(s, io).hadError)
  {
    hide Encode, Decode, U32Of;
    OpenExactly(s.window);
    if (s.at.PollNow? || s.at.PollOneSec?) && io.Received? {
      ControlKeeps(s, io.datagram);
    }
  }

  /** With everything acknowledged as well, the sender goes round `send_data_state` and
      `wait_on_ack_state`. */
  predicate Drained(s: Sender) {
    && ClosedForGood(s) && s.window.IsEmpty()
    && (s.at.SendData? || s.at.PollNow? || s.at.PollOneSec? || s.at.CheckControls?)
  }

  lemma DrainedIgnores(s: Sender, d: Datagram)
    requires Inv(s) && Drained(s)
    ensures Control(s, d) == s
  {
    hide Encode, Decode, U32Of;
    if Decode(d).Some? && |Decode(d).value.data| >= 4 {
      RrExactly(s.window, U32Of(Decode(d).value.data));
      assert s.window.Rr(U32Of(Decode(d).value.data)) == s.window;
    }
  }

  lemma StepStaysDrained(s: Sender, io: Io)
    requires Inv(s) && Drained(s) && Awaits(s, io)
    ensures Drained(Step(s, io)) && Step(s, io).window == s.window && Step(s, io).outbox == s.outbox
  {
    hide Encode, Decode, U32Of, Control;
    OpenExactly(s.window);
    if io.Received? {
      DrainedIgnores(s, io.datagram);
    }
  }

  /** From there, whatever may be delivered, the sender never ends and never sends anything again. */
  lemma {:induction false} DrainedNeverEnds(s: Sender, log: seq<Io>)
    requires s.cfg.Checked() && Inv(s) && Drained(s) && Possible(s, log)
    ensures Inv(Run(s, log)) && Drained(Run(s, log)) && Run(s, log).outbox == s.outbox
    ensures !Run(s, log).at.Done?
  {
    if log != [] {
      hide Step, Awaits, Drained, Inv;
      var before := log[..|log| - 1];
      DrainedNeverEnds(s, before);
      StepKeepsInv(Run(s, before), log[|log| - 1]);
      StepStaysDrained(Run(s, before), log[|log| - 1]);
    }
  }

  /** That many rounds in which nothing arrives. */
  function Rounds(k: nat): (log: seq<Io>)
    ensures |log| == 3 * k
  {
    if k == 0 then [] else Rounds(k - 1) + [Tau, Timeout, Tau]
  }

  lemma DrainedRound(s: Sender)
    requires Inv(s) && Drained(s) && s.at == SendData
    ensures Possible(s, [Tau, Timeout, Tau]) && Run(s, [Tau, Timeout, Tau]) == s
  {
    OpenExactly(s.window);
    hide Encode, Decode, U32Of, OutboxGenuine, WindowHoldsChunks;
    var a := Step(s, Tau);
    var b := Step(a, Timeout);
    assert Awaits(s, Tau) && Awaits(a, Timeout) && Awaits(b, Tau) && Step(b, Tau) == s;
    hide Step, Awaits;
    RunSnoc(s, [], Tau);
    RunSnoc(s, [Tau], Timeout);
    RunSnoc(s, [Tau, Timeout], Tau);
    assert [] + [Tau] == [Tau] && [Tau] + [Timeout] == [Tau, Timeout] && [Tau, Timeout] + [Tau] == [Tau, Timeout, Tau];
  }

  /** Timeouts alone lead back to the same state, any number of times. */
  lemma {:induction false} DrainedSpins(s: Sender, k: nat)
    requires s.cfg.Checked() && Inv(s) && Drained(s) && s.at == SendData
    ensures Possible(s, Rounds(k)) && Run(s, Rounds(k)) == s
  {
    hide Step, Awaits, Drained, Inv;
    if k > 0 {
      DrainedSpins(s, k - 1);
      DrainedRound(s);
      hide Possible, Run;
      RunJoin(s, Rounds(k - 1), [Tau, Timeout, Tau]);
    }
  }
}
