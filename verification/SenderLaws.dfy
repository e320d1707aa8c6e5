/** What each event does to the sender, said by what it sends and keeps. */
module SenderLaws {
  import opened Bytes
  import opened Codec
  import opened SenderWindow
  import opened SenderMachine
  import opened SenderSafety
  import opened SystemCalls
  import RS = ReceiverSafety

  /** An intact RR or SREJ. */
  predicate IsControl(d: Datagram) {
    RS.HasFlag(d, FLAG_RR) || RS.HasFlag(d, FLAG_SREJ)
  }

  /** A control that is long enough to carry a number. */
  predicate Carries(d: Datagram, flag: Byte) {
    RS.HasFlag(d, flag) && |Decode(d).value.data| >= 4
  }

  predicate Polling(s: Sender) {
    s.at.PollNow? || s.at.PollOneSec?
  }

  /** The filename goes out at most ten times, and nothing else with it; then rcopy gives up. */
  lemma FilenameIsSent(s: Sender)
    requires s.cfg.Checked() && s.at.SendFilename?
    ensures Step(s, Tau) ==
            if s.at.tries >= 10 then s.(at := Done, hadError := true)
            else s.(at := PollFilename(s.at.tries), outbox := s.outbox + [Encode(FilenamePacket(s.cfg))])
  {
    hide Encode, Decode;
  }

  /** A response that is 0 opens the window with number 2 first; any other response ends rcopy at once
      with an error; anything else, and silence, costs a try. Nothing is sent in answer. */
  lemma ResponseDecides(s: Sender, d: Datagram)
    requires Inv(s) && s.at.PollFilename?
    ensures var t := Step(s, Received(d));
            if !RS.HasFlag(d, FLAG_FILENAME_RESP) then t == s.(at := SendFilename(s.at.tries + 1))
            else if |Decode(d).value.data| >= 1 && Decode(d).value.data[0] == 0 then
              && t == s.(at := SendData, controlSeq := 2, window := t.window)
              && t.window.Sound() && t.window.size == s.cfg.windowSize && t.window.lower == t.window.current == 2
            else t == s.(at := Done, hadError := true)
    ensures Step(s, Timeout) == s.(at := SendFilename(s.at.tries + 1))
  {
    hide Encode, OutboxGenuine;
  }

  /** What a datagram found by a poll does: an intact RR with a number moves the lower edge there, but
      neither back nor beyond what was sent, and the packets below it are forgotten; an intact SREJ with
      an unacknowledged number has that chunk sent again; nothing else does anything. */
  lemma ControlActs(s: Sender, d: Datagram)
    requires Inv(s) && Polling(s)
    ensures var t, w := Step(s, Received(d)), s.window;
            && t == s.(at := t.at, window := t.window, outbox := t.outbox)
            && (if Carries(d, FLAG_RR) then
                  var v := RS.Value(d);
                  && t.outbox == s.outbox && t.window.Sound()
                  && t.window.size == w.size && t.window.current == w.current
                  && t.window.lower == (if v < w.lower then w.lower else if v > w.current then w.current else v)
                  && forall n :: n in t.window.live ==> n in w.live && t.window.live[n] == w.live[n]
                else if Carries(d, FLAG_SREJ) && w.lower <= RS.Value(d) < w.current then
                  t.window == w && t.outbox == s.outbox + [ChunkDatagram(s.chunks, RS.Value(d))]
                else t.window == w && t.outbox == s.outbox)
  {
    hide Encode, U32Of, Intact, OutboxGenuine;
    if Carries(d, FLAG_RR) {
      RrExactly(s.window, RS.Value(d));
    } else if Carries(d, FLAG_SREJ) {
      assert RS.Value(d) in s.window.live <==> s.window.lower <= RS.Value(d) < s.window.current;
    }
  }

  /** A wait counts exactly the intact RR and SREJ datagrams that arrive in it. */
  lemma WaitCountsControls(s: Sender, d: Datagram)
    requires s.cfg.Checked()
    ensures s.at.PollOneSec? ==>
              Step(s, Received(d)).at == PollOneSec(s.at.got + if IsControl(d) then 1 else 0)
              && Step(s, Timeout) == s.(at := CheckControls(s.at.got))
    ensures s.at.PollNow? ==> Step(s, Received(d)).at == PollNow && Step(s, Timeout) == s.(at := SendData)
  {
    hide Encode, U32Of;
  }

  /** The end of a wait. After a control packet sending goes on with all retries restored. Otherwise, as
      long as something is unacknowledged, the lowest chunk is sent again, unless it is the tenth such
      wait in a row: then rcopy ends with an error and sends nothing. */
  lemma WaitDecides(s: Sender)
    requires Inv(s) && s.at.CheckControls?
    ensures Step(s, Tau) ==
            if s.at.got > 0 then s.(at := SendData, retryCount := 0)
            else if s.window.lower == s.window.current then s.(at := SendData)
            else if s.retryCount + 1 >= 10 then s.(at := Done, hadError := true, retryCount := s.retryCount + 1)
            else s.(at := PollOneSec(0), retryCount := s.retryCount + 1,
                    outbox := s.outbox + [ChunkDatagram(s.chunks, s.window.lower)])
  {
    hide Encode, Decode, U32Of, OutboxGenuine;
  }

  /** What is sent when the window has room and the file has more: the next chunk, under the next number,
      and it is kept. An empty read ends the file, a failing one rcopy. */
  lemma ChunkIsSent(s: Sender, io: Io)
    requires Inv(s) && s.at.SendData? && !s.fileDone && Awaits(s, io)
    requires s.window.current < s.window.lower + s.window.size < TWO32
    ensures var t, n := Step(s, io), s.window.current;
            if io == Read([]) then t == s.(fileDone := true)
            else if io.Read? then
              && n == 2 + |s.chunks| && t.chunks == s.chunks + [io.data]
              && var d := ChunkDatagram(t.chunks, n);
                 && Decode(d) == Some(Packet(n, FLAG_DATA, io.data))
                 && t == s.(at := PollNow, retryCount := 0, chunks := t.chunks, outbox := s.outbox + [d],
                            window := s.window.(current := n + 1, live := s.window.live[n := d]))
            else t == s.(at := Done, hadError := true)
  {
    hide Encode, Intact, U32Of, OutboxGenuine;
    OpenExactly(s.window);
  }

  /** Otherwise nothing is sent: the end of the file is announced if everything was acknowledged, and
      controls are waited for if not. */
  lemma NothingToSend(s: Sender)
    requires Inv(s) && s.at.SendData?
    requires s.fileDone || s.window.current >= s.window.lower + s.window.size || s.window.lower + s.window.size >= TWO32
    ensures Step(s, Tau) ==
            s.(at := if s.fileDone && s.window.lower == s.window.current then SendEof(0) else PollOneSec(0))
  {
    hide Encode, Decode, U32Of, OutboxGenuine;
    OpenExactly(s.window);
  }

  /** The end of the file is announced at most ten times, under the number after the last chunk; its
      acknowledgement is answered with one DONE, under the number after that, and rcopy has succeeded. */
  lemma EndIsAnnounced(s: Sender, d: Datagram)
    requires Inv(s)
    ensures s.at.SendEof? ==>
              var t := Step(s, Tau);
              if s.at.tries < 10 then
                exists eof :: t == s.(at := PollEof(s.at.tries), outbox := s.outbox + [eof])
                  && Decode(eof).Some? && Decode(eof).value.flag == FLAG_EOF && Decode(eof).value.data == []
                  && Decode(eof).value.seqNo == 2 + |s.chunks|
              else t == s.(at := Done, hadError := true)
    ensures s.at.PollEof? ==>
              var t := Step(s, Received(d));
              if RS.HasFlag(d, FLAG_EOF_ACK) then
                exists done :: t == s.(at := Done, outbox := s.outbox + [done])
                  && Decode(done).Some? && Decode(done).value.flag == FLAG_DONE && Decode(done).value.data == []
                  && Decode(done).value.seqNo == (3 + |s.chunks|) % TWO32
              else t == s.(at := SendEof(s.at.tries + 1))
    ensures s.at.PollEof? ==> Step(s, Timeout) == s.(at := SendEof(s.at.tries + 1))
  {
    hide Encode, Intact, U32Of, OutboxGenuine;
    assert s.at.SendEof? && s.at.tries < 10 ==>
      Step(s, Tau).outbox == s.outbox + [Encode(EofPacket(s.window.current))];
    assert s.at.PollEof? && RS.HasFlag(d, FLAG_EOF_ACK) ==>
      Step(s, Received(d)).outbox == s.outbox + [Encode(DonePacket(s.window.current))];
  }

  /** Whether an intact RR or SREJ has arrived in the wait that is under way. */
  ghost function Heard(s: Sender, log: seq<Io>): bool
    requires s.cfg.Checked()
  {
    log != [] &&
    var before, io := log[..|log| - 1], log[|log| - 1];
    Run(s, before).at.PollOneSec? && (Heard(s, before) || (io.Received? && IsControl(io.datagram)))
  }

  /** How many waits in a row have ended in which no intact RR or SREJ arrived, while something was
      unacknowledged and nothing new was sent. */
  ghost function QuietWaits(s: Sender, log: seq<Io>): nat
    requires s.cfg.Checked()
  {
    if log == [] then 0
    else
      var before, io := log[..|log| - 1], log[|log| - 1];
      var r := Run(s, before);
      if r.at.CheckControls? then
        if Heard(s, before) then 0
        else QuietWaits(s, before) + if r.window.lower < r.window.current then 1 else 0
      else if r.at.SendData? && io.Read? && io.data != [] then 0
      else QuietWaits(s, before)
  }

  lemma StepRetries(s: Sender, io: Io)
    requires Inv(s) && Awaits(s, io)
    ensures var t := Step(s, io);
            && (!s.at.CheckControls? && !(s.at.SendData? && io.Read? && io.data != []) ==> t.retryCount == s.retryCount)
            && (s.at.SendData? && io.Read? && io.data != [] ==> t.retryCount == 0)
            && (t.at.PollOneSec? && !s.at.PollOneSec? ==> t.at.got == 0)
            && (t.at.CheckControls? ==> s.at.PollOneSec? && io.Timeout? && t.at.got == s.at.got)
  {
    hide Encode, Decode, U32Of, Control, OutboxGenuine, WindowHoldsChunks;
    if io.Received? {
      hide Inv, PlaceFits;
      ControlLeavesCount(s, io.datagram);
    }
  }

  lemma ControlLeavesCount(s: Sender, d: Datagram)
    ensures Control(s, d).retryCount == s.retryCount && Control(s, d).at == s.at
  {
    hide Encode, Decode, U32Of;
  }

  /** Over every run the retry count is the number of quiet waits in a row. */
  lemma {:induction false} RetriesAreQuietWaits(cfg: Config, log: seq<Io>)
    requires cfg.Checked() && Possible(InitialSender(cfg), log)
    ensures var s := Run(InitialSender(cfg), log);
            && s.retryCount == QuietWaits(InitialSender(cfg), log)
            && (s.at.PollOneSec? || s.at.CheckControls? ==> (s.at.got > 0 <==> Heard(InitialSender(cfg), log)))
  {
    if log != [] {
      hide Step, Inv, Awaits, IsControl;
      var before, io := log[..|log| - 1], log[|log| - 1];
      var s := Run(InitialSender(cfg), before);
      RetriesAreQuietWaits(cfg, before);
      RunKeepsInv(cfg, before);
      StepRetries(s, io);
      if s.at.PollOneSec? {
        WaitCountsControls(s, if io.Received? then io.datagram else []);
        PollOneSecAwaits(s, io);
      }
      if s.at.CheckControls? {
        WaitDecides(s);
        CheckAwaits(s, io);
        InvOrders(s);
      }
    }
  }

  lemma PollOneSecAwaits(s: Sender, io: Io)
    requires s.at.PollOneSec? && Awaits(s, io)
    ensures io.Timeout? || io.Received?
  {
  }

  lemma CheckAwaits(s: Sender, io: Io)
    requires s.at.CheckControls? && Awaits(s, io)
    ensures io.Tau?
  {
  }

  lemma InvOrders(s: Sender)
    requires Inv(s)
    ensures s.window.lower <= s.window.current
  {
    hide OutboxGenuine, Encode;
  }

  /** The wait gives up exactly when it is the tenth quiet one in a row: then, and only then, does it
      end rcopy, with an error. */
  lemma GivesUpAtTenthQuietWait(cfg: Config, log: seq<Io>)
    requires cfg.Checked() && Possible(InitialSender(cfg), log) && Run(InitialSender(cfg), log).at.CheckControls?
    ensures var s := InitialSender(cfg);
            var t := Step(Run(s, log), Tau);
            && (t.at.Done? <==> QuietWaits(s, log + [Tau]) == 10)
            && (t.at.Done? ==> t.hadError && t.outbox == Run(s, log).outbox)
            && QuietWaits(s, log + [Tau]) <= 10
  {
    RetriesAreQuietWaits(cfg, log);
    RunKeepsInv(cfg, log);
    var s := Run(InitialSender(cfg), log);
    RunSnoc(InitialSender(cfg), log, Tau);
    assert (log + [Tau])[..|log|] == log;
    hide Run, Possible, Step, Encode, OutboxGenuine;
    WaitDecides(s);
    InvOrders(s);
  }
}
