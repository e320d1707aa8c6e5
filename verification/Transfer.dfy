/** The whole transfer: the sender, one receiving child, and a channel that may lose, repeat,
    reorder or damage whatever either side submits. */
module Transfer {
  import opened Bytes
  import opened Codec
  import opened ErrorInjector
  import opened SystemCalls
  import S = SenderMachine
  import R = ReceiverMachine

  /** The child does not exist before the server has accepted a filename datagram. */
  datatype State = State(snd: S.Sender, rcv: Option<R.Receiver>)

  /** One step: an event at the sender, the fork of the child, or an event at the child. */
  datatype Act =
    | AtSender(io: Io)
    | AtServer(first: Datagram, setup: R.Setup)
    | AtChild(io: Io)

  function Initial(cfg: S.Config): State {
    State(S.InitialSender(cfg), None)
  }

  /** Anything ever submitted may be delivered, any number of times, intact or with one byte
      complemented. */
  ghost predicate Deliverable(outbox: seq<Datagram>, d: Datagram) {
    exists e :: e in outbox && MayCarry(e, d)
  }

  predicate StartsChild(d: Datagram) {
    Decode(d).Some? && Decode(d).value.flag == FLAG_FILENAME
  }

  ghost predicate Enabled(file: seq<seq<Byte>>, st: State, act: Act) {
    match act
    case AtSender(io) =>
      && S.Awaits(st.snd, io)
      && (io.Read? ==> io.data == NextRead(file, |st.snd.chunks|))
      && (io.Received? ==> st.rcv.Some? && Deliverable(st.rcv.value.outbox, io.datagram))
    case AtServer(first, _) =>
      st.rcv.None? && Deliverable(st.snd.outbox, first) && StartsChild(first)
    case AtChild(io) =>
      && st.rcv.Some? && R.Awaits(st.rcv.value, io)
      && (io.Received? ==> Deliverable(st.snd.outbox, io.datagram))
  }

  function Next(st: State, act: Act): State
    requires st.snd.cfg.Checked()
  {
    match act
    case AtSender(io) => st.(snd := S.Step(st.snd, io))
    case AtServer(first, setup) => st.(rcv := Some(R.Forked(first, setup)))
    case AtChild(io) => if st.rcv.Some? then st.(rcv := Some(R.Step(st.rcv.value, io))) else st
  }

  /** `acts` is a run from `st` to `final`. */
  ghost predicate Leads(file: seq<seq<Byte>>, st: State, acts: seq<Act>, final: State)
    decreases |acts|
  {
    st.snd.cfg.Checked() &&
    if acts == [] then final == st
    else Enabled(file, st, acts[0]) && Leads(file, Next(st, acts[0]), acts[1..], final)
  }
}
