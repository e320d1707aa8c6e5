/** The sender of rcopy.c as a deterministic machine: every result of a system call (`read`, or
    `poll` with the `recvfrom` that follows it) is one event, and so is every step between two
    calls at which the code only tests its own state. */
module SenderMachine {
  import opened Bytes
  import opened Codec
  import opened SenderWindow
  import opened SystemCalls

  const FIRST_SEQ: U32 := 1
  const MAX_NAME := 100

  /** The checked command line arguments. `name` has no terminating zero byte. */
  datatype Config = Config(windowSize: nat, bufferSize: nat, name: seq<Byte>)
  {
    predicate Checked() {
      0 < windowSize < MAX_WINDOW && 0 < bufferSize <= MAX_DATA && |name| <= MAX_NAME
    }
  }

  /** The file as `read` returns it: pieces of at most a buffer's length, none of them empty. */
  ghost predicate FileFits(cfg: Config, file: seq<seq<Byte>>) {
    forall c :: c in file ==> 0 < |c| <= cfg.bufferSize
  }

  /** Where the sender is. `Poll` places wait in `pollCall`; the others are tests. */
  datatype Place =
    | SendFilename(tries: nat)
    | PollFilename(tries: nat)
    | SendData
    | PollNow
    | PollOneSec(got: nat)
    | CheckControls(got: nat)
    | SendEof(tries: nat)
    | PollEof(tries: nat)
    | Done

  /** `chunks` lists what `read` has returned and `outbox` every datagram handed to `safeSendto`,
      both from the start. */
  datatype Sender = Sender(
    cfg: Config,
    at: Place,
    window: Win,
    fileDone: bool,
    hadError: bool,
    retryCount: nat,
    controlSeq: U32,
    chunks: seq<seq<Byte>>,
    outbox: seq<Datagram>)
  {
    function Submit(d: Datagram): Sender {
      this.(outbox := outbox + [d])
    }

    function Fail(): Sender {
      this.(hadError := true, at := Done)
    }
  }

  function FilenamePacket(cfg: Config): Packet
    requires cfg.Checked()
  {
    Packet(FIRST_SEQ, FLAG_FILENAME, U32Bytes(cfg.windowSize) + U32Bytes(cfg.bufferSize) + cfg.name + [0])
  }

  function DataPacket(n: U32, data: seq<Byte>): Packet {
    Packet(n, FLAG_DATA, data)
  }

  function EofPacket(n: U32): Packet {
    Packet(n, FLAG_EOF, [])
  }

  function DonePacket(n: U32): Packet {
    Packet(Wrap32(n + 1), FLAG_DONE, [])
  }

  function InitialSender(cfg: Config): Sender {
    Sender(cfg, SendFilename(0), NO_WINDOW, false, false, 0, FIRST_SEQ, [], [])
  }

  /** The guard of the loop in `send_data_state`: another chunk is read and sent. */
  predicate MaySend(s: Sender) {
    s.window.IsOpen() && !s.fileDone
  }

  predicate IsFilenameResponse(d: Datagram) {
    Decode(d).Some? && Decode(d).value.flag == FLAG_FILENAME_RESP
  }

  predicate IsEofAck(d: Datagram) {
    Decode(d).Some? && Decode(d).value.flag == FLAG_EOF_ACK
  }

  /** How much `process_controls` adds to its count for one datagram. */
  function Counted(d: Datagram): nat {
    if Decode(d).Some? && (Decode(d).value.flag == FLAG_RR || Decode(d).value.flag == FLAG_SREJ) then 1 else 0
  }

  /** The body of the loop in `process_controls`: `handle_rr` and `handle_reject`. */
  function Control(s: Sender, d: Datagram): (t: Sender)
    ensures t.cfg == s.cfg && s.outbox <= t.outbox
  {
    match Decode(d)
    case None => s
    case Some(p) =>
      if |p.data| < 4 then s
      else if p.flag == FLAG_RR then s.(window := s.window.Rr(U32Of(p.data)))
      else if p.flag == FLAG_SREJ && U32Of(p.data) in s.window.live then
        s.Submit(s.window.live[U32Of(p.data)])
      else s
  }

  /** `filename_state` and `send_filename_packet`. */
  function FilenameStep(s: Sender, io: Io): (t: Sender)
    requires s.cfg.Checked() && (s.at.SendFilename? || s.at.PollFilename?)
    ensures t.cfg == s.cfg && s.outbox <= t.outbox
  {
    var tries := s.at.tries;
    if s.at.SendFilename? then
      if tries < MAX_TRIES then s.Submit(Encode(FilenamePacket(s.cfg))).(at := PollFilename(tries)) else s.Fail()
    else if io.Received? && IsFilenameResponse(io.datagram) then
      var p := Decode(io.datagram).value;
      if |p.data| < 1 || p.data[0] != 0 then s.Fail()
      else s.(controlSeq := Wrap32(s.controlSeq + 1), at := SendData,
              window := InitialWin(s.cfg.windowSize, Wrap32(s.controlSeq + 1)))
    else s.(at := SendFilename(tries + 1))
  }

  /** One chunk, as `send_data_state` sends it. */
  function SendChunk(s: Sender, data: seq<Byte>): Sender {
    var n := s.window.current;
    var d := Encode(DataPacket(n, data));
    s.Submit(d).(window := s.window.Add(n, d), chunks := s.chunks + [data], retryCount := 0, at := PollNow)
  }

  /** `send_data_state` */
  function DataStep(s: Sender, io: Io): (t: Sender)
    requires s.at.SendData? || s.at.PollNow?
    ensures t.cfg == s.cfg && s.outbox <= t.outbox
  {
    if s.at.PollNow? then
      if io.Received? then Control(s, io.datagram) else s.(at := SendData)
    else if MaySend(s) then
      if io.ReadFailed? then s.Fail()
      else if io.Read? && io.data != [] then SendChunk(s, io.data)
      else s.(fileDone := true)
    else if s.fileDone && s.window.IsEmpty() then s.(at := SendEof(0))
    else s.(at := PollOneSec(0))
  }

  /** `wait_on_ack_state` */
  function WaitStep(s: Sender, io: Io): (t: Sender)
    requires s.at.PollOneSec? || s.at.CheckControls?
    ensures t.cfg == s.cfg && s.outbox <= t.outbox
  {
    var got := s.at.got;
    if s.at.PollOneSec? then
      if io.Received? then Control(s, io.datagram).(at := PollOneSec(got + Counted(io.datagram)))
      else s.(at := CheckControls(got))
    else if got > 0 then s.(retryCount := 0, at := SendData)
    else if s.window.Lowest() == None then s.(at := SendData)
    else if s.retryCount + 1 >= MAX_TRIES then s.(retryCount := s.retryCount + 1).Fail()
    else s.(retryCount := s.retryCount + 1, at := PollOneSec(0)).Submit(s.window.Lowest().value)
  }

  /** `send_eof_state` and `send_final_done` */
  function EofStep(s: Sender, io: Io): (t: Sender)
    requires s.at.SendEof? || s.at.PollEof?
    ensures t.cfg == s.cfg && s.outbox <= t.outbox
  {
    var tries := s.at.tries;
    if s.at.SendEof? then
      if tries < MAX_TRIES then s.Submit(Encode(EofPacket(s.window.current))).(at := PollEof(tries)) else s.Fail()
    else if io.Received? && IsEofAck(io.datagram) then
      s.Submit(Encode(DonePacket(s.window.current))).(at := Done)
    else s.(at := SendEof(tries + 1))
  }

  function Step(s: Sender, io: Io): (t: Sender)
    requires s.cfg.Checked()
    ensures t.cfg == s.cfg && s.outbox <= t.outbox
  {
    match s.at
    case SendFilename(_) => FilenameStep(s, io)
    case PollFilename(_) => FilenameStep(s, io)
    case SendData => DataStep(s, io)
    case PollNow => DataStep(s, io)
    case PollOneSec(_) => WaitStep(s, io)
    case CheckControls(_) => WaitStep(s, io)
    case SendEof(_) => EofStep(s, io)
    case PollEof(_) => EofStep(s, io)
    case Done => s
  }

  /** Whether `io` can be what the sender meets next: each place makes one particular call. */
  predicate Awaits(s: Sender, io: Io) {
    match s.at
    case SendData => if MaySend(s) then io.ReadFailed? || (io.Read? && |io.data| <= s.cfg.bufferSize) else io.Tau?
    case PollFilename(_) => io.Timeout? || io.Received?
    case PollNow => io.Timeout? || io.Received?
    case PollOneSec(_) => io.Timeout? || io.Received?
    case PollEof(_) => io.Timeout? || io.Received?
    case Done => false
    case _ => io.Tau?
  }

  /** Every event of the log is one the sender was waiting for. */
  ghost predicate Possible(s: Sender, log: seq<Io>)
    requires s.cfg.Checked()
  {
    log == [] ||
    (Possible(s, log[..|log| - 1]) && Awaits(Run(s, log[..|log| - 1]), log[|log| - 1]))
  }

  /** The state after a whole log of events. */
  function Run(s: Sender, log: seq<Io>): (t: Sender)
    requires s.cfg.Checked()
    ensures t.cfg == s.cfg
  {
    if log == [] then s else Step(Run(s, log[..|log| - 1]), log[|log| - 1])
  }

  lemma RunSnoc(s: Sender, log: seq<Io>, io: Io)
    requires s.cfg.Checked()
    ensures Run(s, log + [io]) == Step(Run(s, log), io)
    ensures Possible(s, log + [io]) <==> Possible(s, log) && Awaits(Run(s, log), io)
  {
    assert (log + [io])[..|log|] == log;
  }

  /** A log can be met in two parts. */
  lemma {:induction false} RunJoin(s: Sender, p: seq<Io>, q: seq<Io>)
    requires s.cfg.Checked()
    ensures Run(s, p + q) == Run(Run(s, p), q)
    ensures Possible(s, p + q) <==> Possible(s, p) && Possible(Run(s, p), q)
    decreases |q|
  {
    hide Step, Awaits;
    if q == [] {
      assert p + q == p;
    } else {
      var init, last := q[..|q| - 1], q[|q| - 1];
      RunJoin(s, p, init);
      RunSnoc(s, p + init, last);
      RunSnoc(Run(s, p), init, last);
      assert p + q == (p + init) + [last] && q == init + [last];
    }
  }
}
