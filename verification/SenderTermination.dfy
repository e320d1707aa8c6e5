/** When rcopy comes to an end: how many events the sender can meet before it is done. */
module SenderTermination {
  import opened Bytes
  import opened Codec
  import opened SenderMachine
  import opened SenderSafety
  import opened SenderWindow
  import opened SystemCalls

  /** The sequence numbers of the file and one window more fit 32 bits. */
  predicate Numberable(cfg: Config, file: seq<seq<Byte>>) {
    2 + |file| + cfg.windowSize < TWO32
  }

  /** What was read so far is the beginning of the file, and its end was not reported early. */
  predicate HasRead(s: Sender, file: seq<seq<Byte>>) {
    s.chunks <= file && (s.fileDone ==> s.chunks == file)
  }

  /** How many events at most are met from a place on while nothing is read and nothing arrives. */
  function PlaceRank(s: Sender): nat {
    match s.at
    case SendFilename(tries) => 25 + 2 * Left(tries)
    case PollFilename(tries) => 24 + 2 * Left(tries)
    case PollOneSec(got) => if got > 0 then 24 else 1 + 2 * Left(s.retryCount)
    case CheckControls(got) => if got > 0 then 23 else 2 * Left(s.retryCount)
    case PollNow => 23
    case SendData => 22
    case SendEof(tries) => 1 + 2 * Left(tries)
    case PollEof(tries) => 2 * Left(tries)
    case Done => 0
  }

  /** Every chunk that is read, and every datagram that is delivered, can restore the retries. */
  function Rank(s: Sender, file: seq<seq<Byte>>): nat
    requires HasRead(s, file)
  {
    24 * (|file| - |s.chunks|) + (if s.fileDone then 0 else 1) + PlaceRank(s)
  }

  lemma NumberableOpens(s: Sender, file: seq<seq<Byte>>)
    requires Inv(s) && HasRead(s, file) && Numberable(s.cfg, file)
    ensures !Drained(s)
    ensures s.at == CheckControls(0) ==> s.window.Lowest().Some?
  {
    hide Encode, Decode, OutboxGenuine;
    if Opened(s) {
      OpenExactly(s.window);
    }
  }

  lemma ControlRead(s: Sender, d: Datagram)
    ensures var t := Control(s, d); t == s.(window := t.window, outbox := t.outbox)
  {
    hide Encode, Decode, U32Of;
  }

  lemma WaitLowersRank(s: Sender, io: Io)
    requires Inv(s) && Awaits(s, io) && (s.at.PollOneSec? || s.at.CheckControls?)
    requires s.at == CheckControls(0) ==> s.window.Lowest().Some?
    ensures PlaceRank(Step(s, io)) < PlaceRank(s) + 24 * Delivered(io)
    ensures Step(s, io).chunks == s.chunks && Step(s, io).fileDone == s.fileDone
  {
    hide Encode, Decode, U32Of, Control, OutboxGenuine, WindowHoldsChunks;
    if io.Received? {
      ControlRead(s, io.datagram);
    }
  }

  /** Every event that is not a delivery lowers the rank, and a delivery raises it by less than 24. */
  lemma StepLowersRank(s: Sender, io: Io, file: seq<seq<Byte>>)
    requires Inv(s) && Awaits(s, io) && HasRead(Step(s, io), file) && Numberable(s.cfg, file)
    ensures HasRead(s, file)
    ensures Rank(Step(s, io), file) < Rank(s, file) + 24 * Delivered(io)
  {
    hide Encode, Decode, U32Of, Control, OutboxGenuine, WindowHoldsChunks;
    if io.Received? {
      ControlRead(s, io.datagram);
    }
    assert HasRead(s, file);
    if s.at.PollOneSec? || s.at.CheckControls? {
      NumberableOpens(s, file);
      WaitLowersRank(s, io);
      hide Step;
    } else {
      hide WaitStep;
    }
  }

  /** A log that rcopy can meet when it reads this file. */
  ghost predicate Logged(cfg: Config, file: seq<seq<Byte>>, log: seq<Io>)
    requires cfg.Checked()
  {
    Possible(InitialSender(cfg), log) && HasRead(Run(InitialSender(cfg), log), file)
  }

  /** For a file that can be numbered rcopy meets only so many events, whatever is delivered. */
  lemma {:induction false} EndsWithin(cfg: Config, file: seq<seq<Byte>>, log: seq<Io>)
    requires cfg.Checked() && Numberable(cfg, file) && Logged(cfg, file, log)
    ensures |log| + Rank(Run(InitialSender(cfg), log), file) <= 24 * (|file| + Deliveries(log)) + 46
  {
    if log != [] {
      hide Rank, Step, Inv, HasRead, Awaits;
      var before, last := log[..|log| - 1], log[|log| - 1];
      RunKeepsInv(cfg, before);
      StepLowersRank(Run(InitialSender(cfg), before), last, file);
      EndsWithin(cfg, file, before);
    }
  }

  /** While at most so many datagrams are delivered, rcopy meets at most so many events. */
  ghost predicate EndsBy(cfg: Config, file: seq<seq<Byte>>, deliveries: nat, bound: nat)
    requires cfg.Checked()
  {
    forall log :: Logged(cfg, file, log) && Deliveries(log) <= deliveries ==> |log| <= bound
  }

  ghost predicate Bounded(cfg: Config, file: seq<seq<Byte>>, deliveries: nat)
    requires cfg.Checked()
  {
    exists bound: nat :: EndsBy(cfg, file, deliveries, bound)
  }

  /** However many datagrams are delivered, as long as they are finitely many, rcopy ends. */
  ghost predicate AlwaysEnds(cfg: Config, file: seq<seq<Byte>>)
    requires cfg.Checked()
  {
    forall deliveries: nat :: Bounded(cfg, file, deliveries)
  }

  /** Whatever is read and delivered, rcopy is not done. */
  ghost predicate NeverEnds(s: Sender)
    requires s.cfg.Checked()
  {
    forall log :: Possible(s, log) ==> !Run(s, log).at.Done?
  }

  /** The event the sender meets next when nothing is delivered. */
  function Quiet(s: Sender, file: seq<seq<Byte>>): Io {
    match s.at
    case SendData => if MaySend(s) then Read(NextRead(file, |s.chunks|)) else Tau
    case PollFilename(_) => Timeout
    case PollNow => Timeout
    case PollOneSec(_) => Timeout
    case PollEof(_) => Timeout
    case _ => Tau
  }

  lemma QuietAwaited(s: Sender, file: seq<seq<Byte>>)
    requires Inv(s) && !s.at.Done? && HasRead(s, file) && FileFits(s.cfg, file)
    ensures Awaits(s, Quiet(s, file)) && HasRead(Step(s, Quiet(s, file)), file)
  {
    hide Encode, Decode, U32Of, Control, Inv;
    if |s.chunks| < |file| {
      assert file[|s.chunks|] in file;
    } else {
      assert s.chunks == file;
    }
  }

  /** Even when nothing is delivered any more, there is an event to meet until rcopy is done, and
      for a file that can be numbered that is after finitely many. */
  lemma {:induction false} ComesToAnEnd(s: Sender, file: seq<seq<Byte>>) returns (log: seq<Io>)
    requires s.cfg.Checked() && Inv(s) && HasRead(s, file) && FileFits(s.cfg, file) && Numberable(s.cfg, file)
    ensures Possible(s, log) && Run(s, log).at.Done?
    decreases Rank(s, file)
  {
    log := [];
    if !s.at.Done? {
      var io := Quiet(s, file);
      QuietAwaited(s, file);
      StepKeepsInv(s, io);
      StepLowersRank(s, io, file);
      RunSnoc(s, [], io);
      hide Rank, Step, Inv, HasRead, Awaits, Possible, Run;
      var rest := ComesToAnEnd(Step(s, io), file);
      RunJoin(s, [io], rest);
      assert [] + [io] == [io];
      log := [io] + rest;
    }
  }
}
