/** What the child learns from the filename datagram, and what the sender learns from the response. */
module TransferHandshake {
  import opened Bytes
  import opened Checksum
  import opened Codec
  import opened SystemCalls
  import opened Transfer
  import opened TransferPrograms
  import opened TransferSafety
  import SL = SenderLaws
  import S = SenderMachine
  import SS = SenderSafety
  import R = ReceiverMachine
  import RL = ReceiverLaws
  import RS = ReceiverSafety

  lemma {:induction false} StringEnds(text: seq<Byte>, rest: seq<Byte>)
    requires 0 !in text
    ensures R.CString(text + [0] + rest) == text
  {
    if text == [] {
      assert ([] + [0] + rest)[0] == 0;
    } else {
      assert text[0] in text;
      StringEnds(text[1..], rest);
      assert (text + [0] + rest)[1..] == text[1..] + [0] + rest;
    }
  }

  /** Where the two numbers and the name stand in the filename datagram: behind the seven bytes of the
      header four for the window size, four for the buffer size, and the name with a zero. */
  lemma FilenameLayout(cfg: S.Config)
    requires cfg.Checked()
    ensures var d := Encode(S.FilenamePacket(cfg));
            && Decode(d).Some? && Decode(d).value.flag == FLAG_FILENAME && Decode(d).value.seqNo == 1
            && |d| == 16 + |cfg.name|
            && cfg.windowSize == Number(d[7], d[8], d[9], d[10])
            && cfg.bufferSize == Number(d[11], d[12], d[13], d[14])
            && d[15..] == cfg.name + [0]
  {
    hide Encode, Decode, U32Bytes, U32Of, Number, OnesSum;
    Layout(S.FilenamePacket(cfg));
    TwoNumbers(Encode(S.FilenamePacket(cfg)), cfg.windowSize, cfg.bufferSize, cfg.name + [0]);
  }

  lemma TwoNumbers(d: Datagram, a: U32, b: U32, rest: seq<Byte>)
    requires |d| >= 15 && d[7..] == U32Bytes(a) + U32Bytes(b) + rest
    ensures a == Number(d[7], d[8], d[9], d[10]) && b == Number(d[11], d[12], d[13], d[14]) && d[15..] == rest
  {
    var v, w := U32Bytes(a), U32Bytes(b);
    NumberOf(v);
    NumberOf(w);
    hide U32Bytes, U32Of, Number;
    assert d[7] == d[7..][0] == v[0] && d[8] == d[7..][1] == v[1] && d[9] == d[7..][2] == v[2];
    assert d[10] == d[7..][3] == v[3];
    assert d[11] == d[7..][4] == w[0] && d[12] == d[7..][5] == w[1] && d[13] == d[7..][6] == w[2];
    assert d[14] == d[7..][7] == w[3];
    assert d[15..] == d[7..][8..] == rest;
  }

  /** What the child reads out of it, in its zeroed copy, is what rcopy was given. */
  lemma FilenameIsRead(cfg: S.Config)
    requires cfg.Checked() && 0 !in cfg.name
    ensures var d := Encode(S.FilenamePacket(cfg));
            && R.AnnouncedSize(d) == cfg.windowSize && R.AnnouncedBufferSize(d) == cfg.bufferSize
            && R.AnnouncedName(d) == cfg.name
  {
    AnnouncesSize(cfg);
    FilenameLayout(cfg);
    var d := Encode(S.FilenamePacket(cfg));
    hide Encode, Decode, U32Of, Number, R.CString, R.AnnouncedSize, S.FilenamePacket;
    var copy := R.FirstPacket(d);
    assert copy[11..15] == d[11..15];
    NumberOf(copy[11..15]);
    NameIsRead(cfg.name, d);
  }

  lemma NameIsRead(name: seq<Byte>, d: Datagram)
    requires 0 !in name && |d| >= 15 && d[15..] == name + [0]
    ensures R.AnnouncedName(d) == name
  {
    var zeros: seq<Byte> := seq(MAX_PACKET, _ => 0);
    assert R.FirstPacket(d)[15..] == name + [0] + zeros;
    StringEnds(name, zeros);
  }

  /** In every run the child opens exactly the name rcopy was given, and knows both sizes. */
  lemma ChildOpensTheName(cfg: S.Config, file: seq<seq<Byte>>, acts: seq<Act>, st: State)
    requires cfg.Checked() && 0 !in cfg.name && S.FileFits(cfg, file)
    requires Leads(file, Initial(cfg), acts, st) && st.rcv.Some?
    ensures var r := st.rcv.value;
            r.outputName == cfg.name && r.windowSize == cfg.windowSize && r.bufferSize == cfg.bufferSize
  {
    hide Leads, Encode, Decode, R.Run, R.AnnouncedSize, R.AnnouncedBufferSize, R.AnnouncedName;
    InitialInv(cfg, file);
    var first, setup := ChildSinceFork(file, Initial(cfg), acts, st);
    FilenameIsRead(cfg);
    RL.KeepsNames(R.Forked(first, setup), ChildLog(acts));
  }

  /** A refusal never makes the sender open its window. */
  lemma RefusalKeepsOut(file: seq<seq<Byte>>, st: State, act: Act)
    requires Inv(file, st) && Enabled(file, st, act)
    requires st.rcv.Some? && RL.Refused(st.rcv.value) && !SS.Opened(st.snd)
    ensures Next(st, act).rcv == st.rcv && !SS.Opened(Next(st, act).snd)
  {
    hide Encode, U32Of, Intact, S.Step, SS.WindowHoldsChunks, SS.PlaceFits, SS.OutboxGenuine, RS.Disciplined;
    if act.AtSender? {
      SenderStepEffect(st.snd, act.io);
      if act.io.Received? && Decode(act.io.datagram).Some? {
        ChildOutboxEncoded(st.rcv.value);
        ArrivesAsSubmitted(st.rcv.value.outbox, act.io.datagram);
      }
    }
  }

  lemma {:induction false} RefusalLasts(file: seq<seq<Byte>>, st: State, acts: seq<Act>, final: State)
    requires Inv(file, st) && Leads(file, st, acts, final)
    requires st.rcv.Some? && RL.Refused(st.rcv.value) && !SS.Opened(st.snd)
    ensures final.rcv == st.rcv && !SS.Opened(final.snd)
    decreases |acts|
  {
    hide Inv, Enabled, RL.Refused, S.Step, R.Step;
    if acts != [] {
      StepKeepsInv(file, st, acts[0]);
      RefusalKeepsOut(file, st, acts[0]);
      RefusalLasts(file, Next(st, acts[0]), acts[1..], final);
    }
  }

  lemma {:induction false} ForksOnce(file: seq<seq<Byte>>, st: State, acts: seq<Act>, final: State)
    requires Leads(file, st, acts, final) && st.rcv.Some?
    ensures forall act :: act in acts ==> !act.AtServer?
    decreases |acts|
  {
    hide S.Step, R.Step, S.Awaits, R.Awaits, Deliverable;
    if acts != [] {
      ForksOnce(file, Next(st, acts[0]), acts[1..], final);
    }
  }

  lemma {:induction false} RefusedFromTheFork(file: seq<seq<Byte>>, st: State, acts: seq<Act>, final: State,
                                              first: Datagram)
    requires Inv(file, st) && Leads(file, st, acts, final) && st.rcv.None?
    requires AtServer(first, R.CannotOpen) in acts
    ensures final.rcv.Some? && RL.Refused(final.rcv.value) && !SS.Opened(final.snd)
    decreases |acts|
  {
    hide S.Step, R.Step, S.Awaits, R.Awaits, R.Forked, Deliverable, StartsChild, RL.Refused, SS.Inv, Agree;
    var next := Next(st, acts[0]);
    StepKeepsInv(file, st, acts[0]);
    if acts[0].AtServer? {
      ForksOnce(file, next, acts[1..], final);
      assert forall act :: act in acts ==> act == acts[0] || act in acts[1..];
      assert acts[0] == AtServer(first, R.CannotOpen);
      RL.CannotOpenRefuses(first, []);
      R.RunNothing(R.Forked(first, R.CannotOpen));
      RefusalLasts(file, next, acts[1..], final);
    } else {
      RefusedFromTheFork(file, next, acts[1..], final, first);
    }
  }

  /** When the output file cannot be opened, rcopy never begins to send data, in any run; and whatever
      intact response it may receive ends it at that event with an error. */
  lemma RefusalEndsTransfer(cfg: S.Config, file: seq<seq<Byte>>, acts: seq<Act>, st: State, first: Datagram)
    requires cfg.Checked() && S.FileFits(cfg, file) && Leads(file, Initial(cfg), acts, st)
    requires AtServer(first, R.CannotOpen) in acts
    ensures st.snd.cfg == cfg && !SS.Opened(st.snd) && st.snd.chunks == []
    ensures st.rcv.Some? && RL.Refused(st.rcv.value)
    ensures forall d :: st.snd.at.PollFilename? && Deliverable(st.rcv.value.outbox, d) && Decode(d).Some? ==>
              S.Step(st.snd, Received(d)) == st.snd.(at := S.Done, hadError := true)
  {
    hide S.Step, Leads, Encode, Intact, Deliverable;
    InitialInv(cfg, file);
    RefusedFromTheFork(file, Initial(cfg), acts, st, first);
    LeadsKeepsInv(file, Initial(cfg), acts, st);
    LeadsKeepsConfig(file, Initial(cfg), acts, st);
    forall d | st.snd.at.PollFilename? && Deliverable(st.rcv.value.outbox, d) && Decode(d).Some?
      ensures S.Step(st.snd, Received(d)) == st.snd.(at := S.Done, hadError := true)
    {
      ChildOutboxEncoded(st.rcv.value);
      ArrivesAsSubmitted(st.rcv.value.outbox, d);
      SL.ResponseDecides(st.snd, d);
    }
  }
}
