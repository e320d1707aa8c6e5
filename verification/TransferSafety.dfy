/** The invariant that spans both ends and every datagram between them, and end-to-end delivery. */
module TransferSafety {
  import opened Bytes
  import opened Codec
  import opened ErrorInjector
  import opened SystemCalls
  import opened Transfer
  import opened ReceiverBuffer
  import S = SenderMachine
  import SS = SenderSafety
  import W = SenderWindow
  import R = ReceiverMachine
  import RS = ReceiverSafety

  /** The buffer holds chunks of the file under their own numbers, and the output is the chunks
      before the expected one. */
  ghost predicate Mirrors(b: Buf, chunks: seq<seq<Byte>>) {
    && 2 <= b.expected <= 2 + |chunks|
    && (forall n :: n in b.live ==> 2 <= n < 2 + |chunks| && b.live[n] == chunks[n - 2])
    && b.output == Flatten(chunks[..b.expected - 2])
  }

  ghost predicate Agree(s: S.Sender, r: R.Receiver) {
    && RS.Inv(r)
    && r.windowSize == s.cfg.windowSize
    && (if RS.Serving(r) then Mirrors(r.buffer, s.chunks) && (SS.Opened(s) ==> s.window.lower <= r.buffer.expected)
        else SS.Opened(s) ==> s.window.lower == 2)
    && (forall d :: d in r.outbox && (RS.HasFlag(d, FLAG_RR) || RS.HasFlag(d, FLAG_SREJ)) ==> 2 <= RS.Value(d))
    && (r.at.WaitOnDone? || (exists d :: d in r.outbox && RS.HasFlag(d, FLAG_EOF_ACK)) ==> SS.Flushed(s))
  }

  ghost predicate Inv(file: seq<seq<Byte>>, st: State) {
    && SS.Inv(st.snd)
    && S.FileFits(st.snd.cfg, file)
    && st.snd.chunks <= file
    && (st.snd.fileDone ==> st.snd.chunks == file)
    && (if st.rcv.None? then !SS.Opened(st.snd) else Agree(st.snd, st.rcv.value))
  }

  /** What arrives at either end and passes the check is what the other end submitted. */
  lemma ArrivesAsSubmitted(outbox: seq<Datagram>, d: Datagram)
    requires Deliverable(outbox, d) && Decode(d).Some?
    requires forall e :: e in outbox ==> Decode(e).Some? && e == Encode(Decode(e).value)
    ensures d in outbox
  {
    var e :| e in outbox && MayCarry(e, d);
    CarriedIntactOrRejected(Decode(e).value, d);
  }

  /** The channel of a transfer can do all that the error injector can: whatever it makes of a datagram
      submitted at any time before may be found by any poll at the other end, and any poll may time out. */
  lemma ChannelCarries(file: seq<seq<Byte>>, st: State, standard: seq<Event>, random: seq<Event>, msgNo: U32,
                       chance: Chance, d: Datagram)
    requires chance.Fits(standard, |d|) && NoStandardFlip(standard)
    requires st.rcv.Some? && Outcome(standard, random, msgNo, chance, d).Sent?
    ensures var wire := Outcome(standard, random, msgNo, chance, d).datagram;
            var s, r := st.snd, st.rcv.value;
            && (d in s.outbox && !r.at.Done? ==> Enabled(file, st, AtChild(Received(wire))))
            && (d in r.outbox && (s.at.PollFilename? || s.at.PollNow? || s.at.PollOneSec? || s.at.PollEof?) ==>
                Enabled(file, st, AtSender(Received(wire))))
    ensures var s, r := st.snd, st.rcv.value;
            && (!r.at.Done? ==> Enabled(file, st, AtChild(Timeout)))
            && (s.at.PollFilename? || s.at.PollNow? || s.at.PollOneSec? || s.at.PollEof? ==>
                Enabled(file, st, AtSender(Timeout)))
  {
    StandardLeavesAlone(standard, msgNo, chance.standardFlips, d);
    assert MayCarry(d, Outcome(standard, random, msgNo, chance, d).datagram);
  }

  lemma InitialInv(cfg: S.Config, file: seq<seq<Byte>>)
    requires cfg.Checked() && S.FileFits(cfg, file)
    ensures Inv(file, Initial(cfg))
  {
  }

  lemma ForksForFilename(file: seq<seq<Byte>>, st: State, first: Datagram, setup: R.Setup)
    requires Inv(file, st) && Enabled(file, st, AtServer(first, setup))
    ensures first == Encode(S.FilenamePacket(st.snd.cfg))
  {
    hide Encode, Decode, U32Of;
    ArrivesAsSubmitted(st.snd.outbox, first);
    assert SS.Genuine(st.snd, first);
  }

  lemma ForkKeepsInv(file: seq<seq<Byte>>, st: State, first: Datagram, setup: R.Setup)
    requires Inv(file, st) && Enabled(file, st, AtServer(first, setup))
    ensures Inv(file, Next(st, AtServer(first, setup)))
  {
    hide Encode, Decode, U32Of, R.AnnouncedSize, R.AnnouncedBufferSize, R.AnnouncedName;
    ForksForFilename(file, st, first, setup);
    AnnouncesSize(st.snd.cfg);
    RS.StartedInv(R.AnnouncedSize(first), R.AnnouncedBufferSize(first), R.AnnouncedName(first), setup);
  }

  /** The window size survives its trip through the filename payload. */
  lemma AnnouncesSize(cfg: S.Config)
    requires cfg.Checked()
    ensures R.AnnouncedSize(Encode(S.FilenamePacket(cfg))) == cfg.windowSize
  {
    var d := Encode(S.FilenamePacket(cfg));
    var copy := R.FirstPacket(d);
    assert copy[HEADER_LEN..HEADER_LEN + 4] == d[HEADER_LEN..][..4];
    assert d[HEADER_LEN..] == S.FilenamePacket(cfg).data;
    assert d[HEADER_LEN..][..4] == U32Bytes(cfg.windowSize);
  }

  lemma MirrorsGrow(b: Buf, chunks: seq<seq<Byte>>, more: seq<seq<Byte>>)
    requires Mirrors(b, chunks) && chunks <= more
    ensures Mirrors(b, more)
  {
    assert more[..b.expected - 2] == chunks[..b.expected - 2];
  }

  lemma {:induction false} WriteReadyMirrors(b: Buf, chunks: seq<seq<Byte>>)
    requires b.Sound() && Mirrors(b, chunks)
    ensures Mirrors(b.WriteReady(), chunks)
    decreases |b.live|
  {
    if b.expected in b.live {
      FlattenSnoc(chunks, b.expected - 2);
      WriteReadyMirrors(b.WriteOne(), chunks);
    }
  }

  /** The child takes a genuine chunk into its buffer or its output, or not at all. */
  lemma DataMirrors(r: R.Receiver, n: U32, chunks: seq<seq<Byte>>)
    requires RS.Inv(r) && r.at.RecvData? && Mirrors(r.buffer, chunks) && 2 <= n < 2 + |chunks|
    ensures var t := R.HandleData(r, n, chunks[n - 2]);
            Mirrors(t.buffer, chunks) && r.buffer.expected <= t.buffer.expected && t.buffer.size == r.buffer.size
  {
    hide Encode, Decode, U32Of, Flatten, Buf.WriteReady, RS.Disciplined, RS.Genuine;
    if r.buffer.InWindow(n) && n == r.buffer.expected {
      RS.FilledSettled(r.buffer, chunks[n - 2]);
      WriteReadyMirrors(r.buffer.Save(n, chunks[n - 2]).RejectCleared(n), chunks);
    }
  }

  lemma FlushedStays(s: S.Sender, io: Io)
    requires SS.Inv(s) && SS.Flushed(s)
    ensures SS.Flushed(S.Step(s, io)) && S.Step(s, io).window == s.window
  {
    hide Encode, Decode, U32Of;
  }

  lemma ControlEffect(s: S.Sender, d: Datagram)
    requires SS.Inv(s) && SS.Opened(s)
    ensures var t := S.Control(s, d);
            && t == s.(window := t.window, outbox := t.outbox)
            && t.window.size == s.window.size
            && (t.window.lower != s.window.lower ==> RS.HasFlag(d, FLAG_RR) && t.window.lower <= RS.Value(d))
  {
    hide Encode, Decode, U32Of;
  }

  /** What one sender event can do to the counters the child's state is related to. */
  lemma SenderStepEffect(s: S.Sender, io: Io)
    requires SS.Inv(s) && S.Awaits(s, io)
    ensures var t := S.Step(s, io);
            && s.chunks <= t.chunks
            && (t.chunks != s.chunks ==> io.Read? && io.data != [] && t.chunks == s.chunks + [io.data])
            && (t.fileDone ==> s.fileDone || io == Read([]))
            && (SS.Opened(s) && t.window.lower != s.window.lower ==>
                io.Received? && RS.HasFlag(io.datagram, FLAG_RR) && t.window.lower <= RS.Value(io.datagram))
            && (!SS.Opened(s) && SS.Opened(t) ==>
                io.Received? && RS.HasFlag(io.datagram, FLAG_FILENAME_RESP) && t.window.lower == 2
                && 0 < |Decode(io.datagram).value.data| && Decode(io.datagram).value.data[0] == 0)
  {
    if (s.at.PollNow? || s.at.PollOneSec?) && io.Received? {
      hide Encode, Decode, U32Of, S.Control;
      ControlEffect(s, io.datagram);
    } else {
      hide Encode, Decode, U32Of, S.Control;
    }
  }

  lemma SenderKeepsAgree(s: S.Sender, r: R.Receiver, io: Io)
    requires SS.Inv(s) && S.Awaits(s, io) && Agree(s, r)
    requires io.Received? && Decode(io.datagram).Some? ==> io.datagram in r.outbox
    ensures Agree(S.Step(s, io), r)
  {
    hide Encode, Decode, U32Of, S.Step, S.Awaits, SS.WindowHoldsChunks, SS.PlaceFits, SS.OutboxGenuine;
    var t := S.Step(s, io);
    SenderStepEffect(s, io);
    if io.Received? && Decode(io.datagram).Some? {
      assert RS.Genuine(r, io.datagram);
    }
    hide RS.Disciplined;
    if RS.Serving(r) {
      MirrorsGrow(r.buffer, s.chunks, t.chunks);
    }
    if SS.Flushed(s) {
      FlushedStays(s, io);
    }
  }

  lemma SenderKeepsInv(file: seq<seq<Byte>>, st: State, io: Io)
    requires Inv(file, st) && Enabled(file, st, AtSender(io))
    ensures Inv(file, Next(st, AtSender(io)))
  {
    hide Encode, Decode, U32Of, S.Step, SS.WindowHoldsChunks, SS.PlaceFits, SS.OutboxGenuine, RS.Inv;
    SS.StepKeepsInv(st.snd, io);
    SenderStepEffect(st.snd, io);
    if st.rcv.Some? {
      if io.Received? && Decode(io.datagram).Some? {
        ChildOutboxEncoded(st.rcv.value);
        ArrivesAsSubmitted(st.rcv.value.outbox, io.datagram);
      }
      SenderKeepsAgree(st.snd, st.rcv.value, io);
    }
  }

  lemma ChildOutboxEncoded(r: R.Receiver)
    requires RS.Inv(r)
    ensures forall e :: e in r.outbox ==> Decode(e).Some? && e == Encode(Decode(e).value)
  {
    hide Encode, Decode;
  }

  /** What one event can add to the child's outbox, and when its buffer changes. */
  lemma ChildStepEffect(r: R.Receiver, io: Io)
    requires RS.Inv(r)
    ensures var t := R.Step(r, io);
            && t.windowSize == r.windowSize && r.outbox <= t.outbox
            && (t.buffer != r.buffer ==> r.at.RecvData? && io.Received? && RS.HasFlag(io.datagram, FLAG_DATA))
            && (forall d :: d in t.outbox && d !in r.outbox && (RS.HasFlag(d, FLAG_RR) || RS.HasFlag(d, FLAG_SREJ))
                  ==> RS.Value(d) == t.buffer.expected)
            && ((t.at.WaitOnDone? || exists d :: d in t.outbox && d !in r.outbox && RS.HasFlag(d, FLAG_EOF_ACK))
                ==> r.at.WaitOnDone? || (io.Received? && RS.HasFlag(io.datagram, FLAG_EOF)))
            && (r.at.RecvData? && io.Received? && RS.HasFlag(io.datagram, FLAG_DATA) ==>
                var p := Decode(io.datagram).value; t.buffer == R.HandleData(r, p.seqNo, p.data).buffer)
  {
    hide Encode, Decode, U32Of, U32Bytes;
    if r.at.RecvData? && io.Received? && RS.HasFlag(io.datagram, FLAG_DATA) {
      HandleDataEffect(r, Decode(io.datagram).value.seqNo, Decode(io.datagram).value.data);
    }
  }

  lemma HandleDataEffect(r: R.Receiver, n: U32, data: seq<Byte>)
    requires RS.Inv(r) && r.at.RecvData?
    ensures var t := R.HandleData(r, n, data);
            && t.windowSize == r.windowSize && t.at == r.at
            && (forall d :: d in t.outbox && d !in r.outbox && (RS.HasFlag(d, FLAG_RR) || RS.HasFlag(d, FLAG_SREJ))
                  ==> RS.Value(d) == t.buffer.expected)
            && (forall d :: d in t.outbox && d !in r.outbox ==> !RS.HasFlag(d, FLAG_EOF_ACK))
  {
    hide Encode, Decode, U32Of, U32Bytes;
  }

  lemma ChildKeepsAgree(s: S.Sender, r: R.Receiver, io: Io)
    requires SS.Inv(s) && Agree(s, r)
    requires io.Received? && Decode(io.datagram).Some? ==> SS.Genuine(s, io.datagram)
    ensures Agree(s, R.Step(r, io))
  {
    hide Encode, Decode, U32Of, R.Step, R.HandleData, RS.Disciplined, SS.WindowHoldsChunks;
    RS.StepKeepsInv(r, io);
    ChildStepEffect(r, io);
    if r.at.RecvData? && io.Received? && RS.HasFlag(io.datagram, FLAG_DATA) {
      DataMirrors(r, Decode(io.datagram).value.seqNo, s.chunks);
    }
  }

  lemma ChildKeepsInv(file: seq<seq<Byte>>, st: State, io: Io)
    requires Inv(file, st) && Enabled(file, st, AtChild(io))
    ensures Inv(file, Next(st, AtChild(io)))
  {
    hide Encode, Decode, U32Of;
    if io.Received? && Decode(io.datagram).Some? {
      ArrivesAsSubmitted(st.snd.outbox, io.datagram);
    }
    ChildKeepsAgree(st.snd, st.rcv.value, io);
  }

  lemma StepKeepsInv(file: seq<seq<Byte>>, st: State, act: Act)
    requires Inv(file, st) && Enabled(file, st, act)
    ensures Inv(file, Next(st, act))
  {
    match act
    case AtSender(io) => SenderKeepsInv(file, st, io);
    case AtServer(first, setup) => ForkKeepsInv(file, st, first, setup);
    case AtChild(io) => ChildKeepsInv(file, st, io);
  }

  lemma {:induction false} LeadsKeepsInv(file: seq<seq<Byte>>, st: State, acts: seq<Act>, final: State)
    requires Inv(file, st) && Leads(file, st, acts, final)
    ensures Inv(file, final)
    decreases |acts|
  {
    if acts != [] {
      StepKeepsInv(file, st, acts[0]);
      LeadsKeepsInv(file, Next(st, acts[0]), acts[1..], final);
    }
  }

  /** Once everything was acknowledged, everything has been written. */
  lemma FlushedMeansComplete(file: seq<seq<Byte>>, st: State)
    requires Inv(file, st) && SS.Flushed(st.snd)
    ensures st.rcv.Some? && st.rcv.value.buffer.output == Flatten(file)
  {
    hide Encode, Decode, U32Of, RS.Disciplined, RS.Genuine, RS.Latched;
    assert file[..|file|] == file;
  }

  /** A state some run reaches from the start. */
  ghost predicate Reachable(cfg: S.Config, file: seq<seq<Byte>>, st: State) {
    cfg.Checked() && S.FileFits(cfg, file) && exists acts :: Leads(file, Initial(cfg), acts, st)
  }

  lemma ReachableInv(cfg: S.Config, file: seq<seq<Byte>>, st: State)
    requires Reachable(cfg, file, st)
    ensures Inv(file, st) && st.snd.cfg == cfg
  {
    var acts :| Leads(file, Initial(cfg), acts, st);
    InitialInv(cfg, file);
    LeadsKeepsInv(file, Initial(cfg), acts, st);
    LeadsKeepsConfig(file, Initial(cfg), acts, st);
  }

  lemma {:induction false} LeadsKeepsConfig(file: seq<seq<Byte>>, st: State, acts: seq<Act>, final: State)
    requires Leads(file, st, acts, final)
    ensures final.snd.cfg == st.snd.cfg
    decreases |acts|
  {
    hide S.Step, R.Step, Enabled;
    if acts != [] {
      LeadsKeepsConfig(file, Next(st, acts[0]), acts[1..], final);
    }
  }

  /** End-to-end delivery: whatever the channel did, if rcopy has finished without an error, or has
      only begun to send the end of the file, the output is the whole input. */
  lemma EndToEndDelivery(cfg: S.Config, file: seq<seq<Byte>>, st: State)
    requires Reachable(cfg, file, st)
    requires (st.snd.at.Done? && !st.snd.hadError) || st.snd.at.SendEof? || st.snd.at.PollEof?
    ensures st.rcv.Some? && st.rcv.value.buffer.output == Flatten(file)
  {
    hide Reachable;
    ReachableInv(cfg, file, st);
    FlushedMeansComplete(file, st);
  }

  /** The child never checks that the file is complete when it is told of its end; still, whenever it
      has acknowledged the end, its output is the whole input. */
  lemma EofMeansComplete(cfg: S.Config, file: seq<seq<Byte>>, st: State)
    requires Reachable(cfg, file, st) && st.rcv.Some?
    requires st.rcv.value.at.WaitOnDone?
             || exists d :: d in st.rcv.value.outbox && RS.HasFlag(d, FLAG_EOF_ACK)
    ensures st.rcv.value.buffer.output == Flatten(file)
  {
    hide Reachable, Decode;
    ReachableInv(cfg, file, st);
    FlushedMeansComplete(file, st);
  }

  /** At every moment the output is exactly the chunks numbered below the expected one. */
  lemma OutputIsPrefix(cfg: S.Config, file: seq<seq<Byte>>, st: State)
    requires Reachable(cfg, file, st) && st.rcv.Some? && RS.Serving(st.rcv.value)
    ensures var b := st.rcv.value.buffer;
            && 2 <= b.expected <= 2 + |file|
            && b.output == Flatten(file[..b.expected - 2])
            && b.output <= Flatten(file)
  {
    hide Reachable, Encode, Decode, U32Of, SS.Inv, RS.Inv, S.FileFits, Flatten;
    ReachableInv(cfg, file, st);
    var b := st.rcv.value.buffer;
    MirrorsGrow(b, st.snd.chunks, file);
    FlattenPrefix(file, b.expected - 2);
  }

  /** After the end was acknowledged, or the child gave up, nothing more is written. */
  lemma {:induction false} OutputFinal(file: seq<seq<Byte>>, st: State, acts: seq<Act>, final: State)
    requires Leads(file, st, acts, final)
    requires st.rcv.Some? && !st.rcv.value.at.RecvData?
    ensures final.rcv.Some? && !final.rcv.value.at.RecvData?
    ensures final.rcv.value.buffer == st.rcv.value.buffer
    decreases |acts|
  {
    if acts != [] {
      hide Encode, Decode, U32Of, S.Step;
      OutputFinal(file, Next(st, acts[0]), acts[1..], final);
    }
  }

  /** How far the two ends can be apart, and what the numbers in flight can be. */
  lemma WindowsOverlap(cfg: S.Config, file: seq<seq<Byte>>, st: State)
    requires Reachable(cfg, file, st) && SS.Opened(st.snd)
    ensures st.rcv.Some?
    ensures var w, b := st.snd.window, st.rcv.value.buffer;
            && 2 <= w.lower <= w.current <= w.lower + w.size && w.size == cfg.windowSize
            && (if RS.Serving(st.rcv.value) then w.lower <= b.expected <= w.current && b.size == w.size
                else st.rcv.value.at.Done? && w.lower == 2 && b.output == [])
            && (forall d :: d in st.rcv.value.outbox && (RS.HasFlag(d, FLAG_RR) || RS.HasFlag(d, FLAG_SREJ))
                  ==> 2 <= RS.Value(d) <= b.expected)
            && (forall d, n: U32 :: d in st.snd.outbox && SS.CarriesData(d, n) ==> 2 <= n < w.current)
  {
    hide Encode, Decode, U32Of, Reachable;
    ReachableInv(cfg, file, st);
    assert forall d :: d in st.snd.outbox ==> SS.Genuine(st.snd, d);
  }

  lemma RequestsBelowCurrent(s: S.Sender, r: R.Receiver, d: Datagram)
    requires Agree(s, r) && SS.WindowHoldsChunks(s) && RS.Serving(r)
    requires SS.Opened(s) && d in r.outbox && RS.HasFlag(d, FLAG_SREJ)
    ensures 2 <= RS.Value(d) < s.window.current
  {
    hide Encode, Decode, U32Of, Flatten, RS.Genuine;
    if RS.Value(d) == r.buffer.expected {
      var m :| m in r.buffer.live;
      assert r.buffer.expected <= m < s.window.current && m != r.buffer.expected;
    }
  }

  /** What the child asks to be sent again is never beyond what was sent, since it asks only while a
      later packet waits; and as long as it is unacknowledged the sender finds it and answers with the
      datagram it sent under that number before. */
  lemma RequestsAreAnswered(cfg: S.Config, file: seq<seq<Byte>>, st: State, d: Datagram)
    requires Reachable(cfg, file, st) && SS.Opened(st.snd) && st.rcv.Some?
    requires d in st.rcv.value.outbox && RS.HasFlag(d, FLAG_SREJ)
    ensures var n, s := RS.Value(d), st.snd;
            && 2 <= n < s.window.current == 2 + |s.chunks|
            && if n < s.window.lower then S.Control(s, d) == s
               else SS.ChunkDatagram(s.chunks, n) in s.outbox
                    && S.Control(s, d) == s.Submit(SS.ChunkDatagram(s.chunks, n))
  {
    hide Encode, U32Of, Intact, Reachable;
    ReachableInv(cfg, file, st);
    assert RS.Genuine(st.rcv.value, d);
    RequestsBelowCurrent(st.snd, st.rcv.value, d);
    hide Agree;
    assert RS.Value(d) in st.snd.window.live <==> st.snd.window.lower <= RS.Value(d);
  }

  /** At the moment the sender takes the handshake to be over, both ends work with the window size that
      was asked for and number the data from 2 - or the child has exited for want of memory - and nothing
      has been received or written. */
  lemma HandshakeAgrees(cfg: S.Config, file: seq<seq<Byte>>, st: State, act: Act, t: State)
    requires Reachable(cfg, file, st) && Leads(file, st, [act], t)
    requires !SS.Opened(st.snd) && SS.Opened(t.snd)
    ensures && t.snd.window == W.InitialWin(cfg.windowSize, 2) && t.snd.chunks == []
            && t.rcv.Some? && t.rcv.value.windowSize == cfg.windowSize
            && t.rcv.value.buffer.live == map[] && t.rcv.value.buffer.output == []
            && (if RS.Serving(t.rcv.value)
                then t.rcv.value.buffer.size == cfg.windowSize && t.rcv.value.buffer.expected == 2
                     && !t.rcv.value.buffer.missingActive
                else t.rcv.value.at.Done?)
  {
    hide Encode, Decode, U32Of, Reachable, RS.Disciplined, SS.OutboxGenuine;
    ReachableInv(cfg, file, st);
    StepKeepsInv(file, st, act);
    assert Leads(file, Next(st, act), [act][1..], t);
  }

  /** No packet that the sender ever sends is turned away as being beyond the receive window, unless
      the 32-bit limit of that window has wrapped - and then every packet is. */
  lemma GenuineDataFits(cfg: S.Config, file: seq<seq<Byte>>, st: State, d: Datagram, n: U32)
    requires Reachable(cfg, file, st) && st.rcv.Some?
    requires d in st.snd.outbox && SS.CarriesData(d, n) && st.rcv.value.buffer.expected <= n
    ensures RS.Serving(st.rcv.value) ==>
              (st.rcv.value.buffer.InWindow(n) <==> st.rcv.value.buffer.expected + cfg.windowSize < TWO32)
  {
    hide Encode, Decode, U32Of, Reachable;
    ReachableInv(cfg, file, st);
    assert SS.Genuine(st.snd, d);
    InWindowExactly(st.rcv.value.buffer);
    assert n < st.snd.window.current;
  }
}
