/** The programs inside a transfer: what the logs of the two ends say about each other. */
module TransferPrograms {
  import opened Bytes
  import opened Codec
  import opened SystemCalls
  import opened Transfer
  import opened TransferSafety
  import S = SenderMachine
  import SS = SenderSafety
  import R = ReceiverMachine

  /** The event of a step, if it happened at the sender. */
  function SenderPart(act: Act): seq<Io> {
    if act.AtSender? then [act.io] else []
  }

  function ChildPart(act: Act): seq<Io> {
    if act.AtChild? then [act.io] else []
  }

  /** The events of a run that happened at the sender, which are what rcopy logs. */
  function SenderLog(acts: seq<Act>): seq<Io> {
    if acts == [] then [] else SenderPart(acts[0]) + SenderLog(acts[1..])
  }

  /** The events of a run that happened at the child. */
  function ChildLog(acts: seq<Act>): seq<Io> {
    if acts == [] then [] else ChildPart(acts[0]) + ChildLog(acts[1..])
  }

  lemma SenderStepLogged(file: seq<seq<Byte>>, st: State, act: Act, s: S.Sender, log: seq<Io>)
    requires s.cfg.Checked() && Enabled(file, st, act) && S.Possible(s, log) && st.snd == S.Run(s, log)
    ensures S.Possible(s, log + SenderPart(act)) && Next(st, act).snd == S.Run(s, log + SenderPart(act))
  {
    hide S.Step, R.Step, S.Awaits, R.Awaits, S.Run, S.Possible, Deliverable;
    if act.AtSender? {
      S.RunSnoc(s, log, act.io);
    } else {
      assert log + SenderPart(act) == log;
    }
  }

  lemma ChildStepLogged(file: seq<seq<Byte>>, st: State, act: Act, r: R.Receiver, log: seq<Io>)
    requires st.snd.cfg.Checked() && Enabled(file, st, act) && R.Possible(r, log) && st.rcv == Some(R.Run(r, log))
    ensures R.Possible(r, log + ChildPart(act)) && Next(st, act).rcv == Some(R.Run(r, log + ChildPart(act)))
  {
    hide S.Step, R.Step, S.Awaits, R.Awaits, R.Run, R.Possible, Deliverable;
    if act.AtChild? {
      R.RunSnoc(r, log, act.io);
    } else {
      assert log + ChildPart(act) == log;
    }
  }

  /** In every run the sender is where its own log alone leads it. */
  lemma {:induction false} SenderFollowsItsLog(file: seq<seq<Byte>>, st: State, acts: seq<Act>, final: State,
                                               s: S.Sender, log: seq<Io>)
    requires s.cfg.Checked() && Leads(file, st, acts, final)
    requires S.Possible(s, log) && st.snd == S.Run(s, log)
    ensures S.Possible(s, log + SenderLog(acts)) && final.snd == S.Run(s, log + SenderLog(acts))
    decreases |acts|
  {
    hide Next, Enabled, SenderPart, S.Run, S.Possible;
    if acts == [] {
      assert log + SenderLog(acts) == log;
    } else {
      SenderStepLogged(file, st, acts[0], s, log);
      SenderFollowsItsLog(file, Next(st, acts[0]), acts[1..], final, s, log + SenderPart(acts[0]));
      assert log + SenderLog(acts) == log + SenderPart(acts[0]) + SenderLog(acts[1..]);
    }
  }

  /** In every run the child, once forked, is where its own log alone leads it. */
  lemma {:induction false} ChildFollowsItsLog(file: seq<seq<Byte>>, st: State, acts: seq<Act>, final: State,
                                              r: R.Receiver, log: seq<Io>)
    requires Leads(file, st, acts, final) && R.Possible(r, log) && st.rcv == Some(R.Run(r, log))
    ensures R.Possible(r, log + ChildLog(acts)) && final.rcv == Some(R.Run(r, log + ChildLog(acts)))
    decreases |acts|
  {
    hide Next, Enabled, ChildPart, R.Run, R.Possible;
    if acts == [] {
      assert log + ChildLog(acts) == log;
    } else {
      ChildStepLogged(file, st, acts[0], r, log);
      ChildFollowsItsLog(file, Next(st, acts[0]), acts[1..], final, r, log + ChildPart(acts[0]));
      assert log + ChildLog(acts) == log + ChildPart(acts[0]) + ChildLog(acts[1..]);
    }
  }

  lemma BeforeTheFork(file: seq<seq<Byte>>, st: State, act: Act)
    requires st.snd.cfg.Checked() && Enabled(file, st, act) && st.rcv.None?
    ensures ChildPart(act) == []
    ensures !act.AtServer? ==> Next(st, act).rcv.None? && Next(st, act).snd.cfg == st.snd.cfg
    ensures act.AtServer? ==> Next(st, act).rcv == Some(R.Forked(act.first, act.setup))
  {
    hide S.Step, R.Step, R.Forked, S.Awaits, R.Awaits, Deliverable, StartsChild;
  }

  /** A child that is there at the end was forked in the run, for the filename datagram, and is where its
      own log leads it from there. */
  lemma {:induction false} ChildSinceFork(file: seq<seq<Byte>>, st: State, acts: seq<Act>, final: State)
    returns (first: Datagram, setup: R.Setup)
    requires Inv(file, st) && Leads(file, st, acts, final) && st.rcv.None? && final.rcv.Some?
    ensures AtServer(first, setup) in acts && first == Encode(S.FilenamePacket(st.snd.cfg))
    ensures R.Possible(R.Forked(first, setup), ChildLog(acts))
    ensures final.rcv == Some(R.Run(R.Forked(first, setup), ChildLog(acts)))
    decreases |acts|
  {
    var act, rest := acts[0], acts[1..];
    hide Next, Enabled, Agree, SS.WindowHoldsChunks, SS.OutboxGenuine, SS.PlaceFits;
    hide R.Forked, R.Run, R.Possible, Encode, ChildPart;
    var next := Next(st, act);
    StepKeepsInv(file, st, act);
    BeforeTheFork(file, st, act);
    assert ChildLog(acts) == [] + ChildLog(rest) == ChildLog(rest);
    if act.AtServer? {
      first, setup := act.first, act.setup;
      ForksForFilename(file, st, first, setup);
      var child := R.Forked(first, setup);
      R.RunNothing(child);
      ChildFollowsItsLog(file, next, rest, final, child, []);
      assert [] + ChildLog(rest) == ChildLog(rest);
    } else {
      first, setup := ChildSinceFork(file, next, rest, final);
      assert AtServer(first, setup) in rest;
    }
  }

  /** If rcopy, in a transfer with some child over some channel, has logged what makes it end without
      an error - `process_file` returned 0 - then the child that was forked for
      its filename, run on what was delivered to it, has written the whole file. */
  lemma SuccessIsDelivery(cfg: S.Config, file: seq<seq<Byte>>, acts: seq<Act>, st: State)
    requires cfg.Checked() && S.FileFits(cfg, file) && Leads(file, Initial(cfg), acts, st)
    requires var s := S.Run(S.InitialSender(cfg), SenderLog(acts)); s.at.Done? && !s.hadError
    ensures exists first, setup :: AtServer(first, setup) in acts
              && R.AnnouncedSize(first) == cfg.windowSize && |first| <= MAX_PACKET
              && st.rcv == Some(R.Run(R.Forked(first, setup), ChildLog(acts)))
              && st.rcv.value.buffer.output == Flatten(file)
  {
    hide S.Step, Leads;
    assert [] + SenderLog(acts) == SenderLog(acts);
    SenderFollowsItsLog(file, Initial(cfg), acts, st, S.InitialSender(cfg), []);
    EndToEndDelivery(cfg, file, st);
    InitialInv(cfg, file);
    var first, setup := ChildSinceFork(file, Initial(cfg), acts, st);
    AnnouncesSize(cfg);
  }
}
