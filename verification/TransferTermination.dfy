/** Exactly when rcopy comes to an end. */
module TransferTermination {
  import opened Bytes
  import opened SenderTermination
  import opened SystemCalls
  import opened Transfer
  import opened TransferCompletion
  import opened TransferPrograms
  import opened TransferSafety
  import S = SenderMachine
  import SS = SenderSafety
  import W = SenderWindow

  /** The run that gets stuck, and the log of rcopy in it. */
  lemma DrainedAfterAll(cfg: S.Config, file: seq<seq<Byte>>) returns (st: State, log: seq<Io>)
    requires cfg.Checked() && S.FileFits(cfg, file) && !Numberable(cfg, file)
    ensures Reachable(cfg, file, st) && SS.Inv(st.snd) && st.snd.cfg == cfg
    ensures SS.Drained(st.snd) && st.snd.at == S.SendData
    ensures Logged(cfg, file, log) && st.snd == S.Run(S.InitialSender(cfg), log)
  {
    hide Leads, S.Run, S.Possible;
    st := TooLongGetsStuck(cfg, file);
    ReachableInv(cfg, file, st);
    var acts :| Leads(file, Initial(cfg), acts, st);
    log := SenderLog(acts);
    StartsAtInitial(cfg);
    SenderFollowsItsLog(file, Initial(cfg), acts, st, S.InitialSender(cfg), []);
    assert [] + log == log;
  }

  lemma StartsAtInitial(cfg: S.Config)
    requires cfg.Checked()
    ensures S.Possible(S.InitialSender(cfg), []) && S.Run(S.InitialSender(cfg), []) == Initial(cfg).snd
  {
  }

  /** A sender that has drained a window that cannot open again is reached exactly when the file is too
      long; and that is exactly when a state is reached from which rcopy can never end. */
  lemma NeverEndsExactly(cfg: S.Config, file: seq<seq<Byte>>)
    requires cfg.Checked() && S.FileFits(cfg, file)
    ensures (exists st :: Reachable(cfg, file, st) && SS.Drained(st.snd)) <==> !Numberable(cfg, file)
    ensures (exists st :: Reachable(cfg, file, st) && st.snd.cfg.Checked() && NeverEnds(st.snd))
            <==> !Numberable(cfg, file)
  {
    hide Reachable, S.FileFits, SS.Drained, S.Run, S.Possible;
    if Numberable(cfg, file) {
      forall st | Reachable(cfg, file, st)
        ensures !SS.Drained(st.snd) && (st.snd.cfg.Checked() ==> !NeverEnds(st.snd))
      {
        ReachableInv(cfg, file, st);
        NumberableOpens(st.snd, file);
        var log := ComesToAnEnd(st.snd, file);
      }
    } else {
      var st, _ := DrainedAfterAll(cfg, file);
      forall log | S.Possible(st.snd, log)
        ensures !S.Run(st.snd, log).at.Done?
      {
        SS.DrainedNeverEnds(st.snd, log);
      }
    }
  }

  /** From the drained state the log grows for ever without a delivery. */
  lemma DrainedExceeds(cfg: S.Config, file: seq<seq<Byte>>, log: seq<Io>, s: S.Sender, bound: nat)
    requires cfg.Checked() && Logged(cfg, file, log) && s == S.Run(S.InitialSender(cfg), log)
    requires SS.Inv(s) && SS.Drained(s) && s.at == S.SendData
    ensures !EndsBy(cfg, file, Deliveries(log), bound)
  {
    hide S.Run, S.Possible, SS.Inv, SS.Drained;
    SS.DrainedSpins(s, bound + 1);
    S.RunJoin(S.InitialSender(cfg), log, SS.Rounds(bound + 1));
    RoundsDeliverNothing(log, bound + 1);
    var longer := log + SS.Rounds(bound + 1);
    assert Logged(cfg, file, longer) && Deliveries(longer) <= Deliveries(log);
    assert |longer| == |log| + 3 * (bound + 1);
  }

  lemma RoundDeliversNothing(log: seq<Io>)
    ensures Deliveries(log + [Tau, Timeout, Tau]) == Deliveries(log)
  {
    hide Deliveries;
    DeliveriesSnoc(log, Tau);
    DeliveriesSnoc(log + [Tau], Timeout);
    DeliveriesSnoc(log + [Tau] + [Timeout], Tau);
    assert log + [Tau, Timeout, Tau] == log + [Tau] + [Timeout] + [Tau];
  }

  lemma {:induction false} RoundsDeliverNothing(log: seq<Io>, k: nat)
    ensures Deliveries(log + SS.Rounds(k)) == Deliveries(log)
  {
    hide Deliveries;
    if k == 0 {
      assert log + SS.Rounds(k) == log;
    } else {
      RoundsDeliverNothing(log, k - 1);
      var before := log + SS.Rounds(k - 1);
      RoundDeliversNothing(before);
      assert log + SS.Rounds(k) == before + [Tau, Timeout, Tau];
    }
  }

  /** `process_file` is sure to come to an end, whatever finitely many datagrams are delivered to it,
      if and only if the file can be numbered: 2 + chunks + window size below 2^32. */
  lemma TerminatesExactly(cfg: S.Config, file: seq<seq<Byte>>)
    requires cfg.Checked() && S.FileFits(cfg, file)
    ensures AlwaysEnds(cfg, file) <==> Numberable(cfg, file)
  {
    hide Logged, S.FileFits, Reachable, Inv, SS.Drained;
    if Numberable(cfg, file) {
      forall deliveries: nat
        ensures Bounded(cfg, file, deliveries)
      {
        forall log | Logged(cfg, file, log) && Deliveries(log) <= deliveries
          ensures |log| <= 24 * (|file| + deliveries) + 46
        {
          EndsWithin(cfg, file, log);
        }
        assert EndsBy(cfg, file, deliveries, 24 * (|file| + deliveries) + 46);
      }
    } else {
      var st, log := DrainedAfterAll(cfg, file);
      forall bound: nat
        ensures !EndsBy(cfg, file, Deliveries(log), bound)
      {
        DrainedExceeds(cfg, file, log, st.snd, bound);
      }
      assert !Bounded(cfg, file, Deliveries(log));
    }
  }

  /** The fewest chunks that can keep rcopy busy for ever, over all windows the command line allows: the
      largest window, one byte to a chunk, an output file named "o". */
  lemma ShortestEndlessFile()
    ensures var cfg: S.Config := S.Config(W.MAX_WINDOW - 1, 1, [111]);
            var file: seq<seq<Byte>> := seq(3 * W.MAX_WINDOW - 1, _ => [0]);
            && cfg.Checked() && S.FileFits(cfg, file) && !AlwaysEnds(cfg, file)
            && (exists st :: Reachable(cfg, file, st) && SS.Drained(st.snd))
    ensures forall cfg: S.Config, file ::
              cfg.Checked() && S.FileFits(cfg, file) && |file| < 3 * W.MAX_WINDOW - 1 ==> AlwaysEnds(cfg, file)
  {
    hide AlwaysEnds, Reachable, SS.Drained;
    var cfg: S.Config := S.Config(W.MAX_WINDOW - 1, 1, [111]);
    var file: seq<seq<Byte>> := seq(3 * W.MAX_WINDOW - 1, _ => [0]);
    assert S.FileFits(cfg, file);
    TerminatesExactly(cfg, file);
    NeverEndsExactly(cfg, file);
    forall shorter: S.Config, pieces |
      shorter.Checked() && S.FileFits(shorter, pieces) && |pieces| < 3 * W.MAX_WINDOW - 1
      ensures AlwaysEnds(shorter, pieces)
    {
      TerminatesExactly(shorter, pieces);
    }
  }
}
