/** The child of server.c that receives one file, as a deterministic machine over the results of its
    system calls. */
module ReceiverMachine {
  import opened Bytes
  import opened Codec
  import opened ReceiverBuffer
  import opened SystemCalls

  const FIRST_DATA_SEQ: U32 := 2

  /** What becomes of the output file and the table of the buffer when the child starts. */
  datatype Setup = CannotOpen | NoMemory | Ready

  datatype Place = RecvData | WaitOnDone | Done

  /** `outputName` is what was given to `open` for the output file, `outbox` lists every datagram handed to
      `safeSendto`. What has been written to the output file is part of the buffer. */
  datatype Receiver = Receiver(
    at: Place,
    windowSize: U32,
    bufferSize: U32,
    outputName: seq<Byte>,
    buffer: Buf,
    retryCount: nat,
    controlSeq: U32,
    lastAck: Datagram,
    outbox: seq<Datagram>)
  {
    function SubmitNumbered(flag: Byte, data: seq<Byte>): Receiver {
      this.(outbox := outbox + [Encode(Packet(controlSeq, flag, data))], controlSeq := Wrap32(controlSeq + 1))
    }

    function SendRr(): Receiver {
      SubmitNumbered(FLAG_RR, U32Bytes(buffer.expected))
    }

    function SendReject(): Receiver {
      SubmitNumbered(FLAG_SREJ, U32Bytes(buffer.expected))
    }

    function SendEofAck(): Receiver {
      var d := Encode(Packet(controlSeq, FLAG_EOF_ACK, []));
      this.(lastAck := d, controlSeq := Wrap32(controlSeq + 1), outbox := outbox + [d])
    }

    function ResendLastAck(): Receiver {
      this.(outbox := outbox + [lastAck])
    }
  }

  /** The copy the child takes of the first datagram, in memory that was zeroed: a field the datagram is
      too short for reads as zero. */
  function FirstPacket(first: Datagram): seq<Byte> {
    first + seq(MAX_PACKET, _ => 0)
  }

  function AnnouncedSize(first: Datagram): U32 {
    U32Of(FirstPacket(first)[HEADER_LEN..HEADER_LEN + 4])
  }

  function AnnouncedBufferSize(first: Datagram): U32 {
    U32Of(FirstPacket(first)[HEADER_LEN + 4..HEADER_LEN + 8])
  }

  /** The string that starts at a place in memory: the bytes up to the first zero. */
  function CString(bytes: seq<Byte>): seq<Byte> {
    if bytes == [] || bytes[0] == 0 then [] else [bytes[0]] + CString(bytes[1..])
  }

  lemma {:induction false} CStringBeforeZeros(bytes: seq<Byte>, zeros: seq<Byte>)
    requires forall b :: b in zeros ==> b == 0
    ensures CString(bytes + zeros) == CString(bytes)
  {
    if bytes == [] {
      assert bytes + zeros == zeros;
      assert zeros != [] ==> zeros[0] in zeros;
    } else if bytes[0] != 0 {
      CStringBeforeZeros(bytes[1..], zeros);
      assert (bytes + zeros)[1..] == bytes[1..] + zeros;
    }
  }

  function AnnouncedName(first: Datagram): seq<Byte> {
    CString(FirstPacket(first)[HEADER_LEN + 8..])
  }

  /** `filename_state`: the response goes out, and the buffer is made if the file could be opened. If its
      table cannot be allocated, and for a size beyond an `int` it never can, the child exits. */
  function Started(windowSize: U32, bufferSize: U32, outputName: seq<Byte>, setup: Setup): Receiver {
    var r := Receiver(RecvData, windowSize, bufferSize, outputName, NO_BUFFER, 0, 1, [], []);
    if setup.CannotOpen? then
      r.SubmitNumbered(FLAG_FILENAME_RESP, [1]).(at := Done)
    else
      var s := r.SubmitNumbered(FLAG_FILENAME_RESP, [0]);
      if setup.Ready? && windowSize < MAX_BUFFER then s.(buffer := InitialBuf(windowSize, FIRST_DATA_SEQ))
      else s.(at := Done)
  }

  /** The child from the fork on. */
  function Forked(first: Datagram, setup: Setup): Receiver {
    Started(AnnouncedSize(first), AnnouncedBufferSize(first), AnnouncedName(first), setup)
  }

  /** The answer to the expected packet: write what is ready, acknowledge, and request the next
      missing packet if a later one is waiting. */
  function AcceptExpected(r: Receiver, n: U32): (s: Receiver)
    ensures r.outbox <= s.outbox
  {
    var s := r.(buffer := r.buffer.RejectCleared(n).WriteReady()).SendRr();
    if s.buffer.HasLater() && s.buffer.NeedsReject() then s.(buffer := s.buffer.RejectNoted()).SendReject() else s
  }

  /** The answer to a packet beyond the expected one. */
  function AcceptLater(r: Receiver): (s: Receiver)
    ensures r.outbox <= s.outbox
  {
    if r.buffer.NeedsReject() then r.(buffer := r.buffer.RejectNoted()).SendReject() else r
  }

  /** `handle_data_packet` */
  function HandleData(r: Receiver, n: U32, data: seq<Byte>): (s: Receiver)
    ensures r.outbox <= s.outbox
  {
    if n < r.buffer.expected || !r.buffer.InWindow(n) then r.SendRr()
    else
      var s := r.(buffer := r.buffer.Save(n, data));
      if n == r.buffer.expected then AcceptExpected(s, n) else AcceptLater(s)
  }

  /** `recv_data_state` */
  function ReceiveStep(r: Receiver, io: Io): (s: Receiver)
    requires r.at.RecvData?
    ensures r.outbox <= s.outbox
  {
    if !io.Received? then r.(at := Done)
    else
      match Decode(io.datagram)
      case None => r
      case Some(p) =>
        if p.flag == FLAG_DATA then HandleData(r, p.seqNo, p.data)
        else if p.flag == FLAG_EOF then r.SendEofAck().(retryCount := 0, at := WaitOnDone)
        else r
  }

  /** `wait_on_done_state` */
  function WaitStep(r: Receiver, io: Io): (s: Receiver)
    requires r.at.WaitOnDone?
    ensures r.outbox <= s.outbox
  {
    if !io.Received? then
      var s := r.(retryCount := r.retryCount + 1);
      if s.retryCount >= MAX_TRIES then s.(at := Done) else s.ResendLastAck()
    else
      match Decode(io.datagram)
      case None => r
      case Some(p) =>
        if p.flag == FLAG_DONE then r.(at := Done)
        else if p.flag == FLAG_EOF then r.ResendLastAck()
        else r
  }

  function Step(r: Receiver, io: Io): (s: Receiver)
    ensures r.outbox <= s.outbox
  {
    match r.at
    case RecvData => ReceiveStep(r, io)
    case WaitOnDone => WaitStep(r, io)
    case Done => r
  }

  /** The child waits in `poll` until it is done. */
  predicate Awaits(r: Receiver, io: Io) {
    !r.at.Done? && (io.Timeout? || io.Received?)
  }

  /** Every event of the log is one the child was waiting for. */
  ghost predicate Possible(r: Receiver, log: seq<Io>) {
    log == [] ||
    (Possible(r, log[..|log| - 1]) && Awaits(Run(r, log[..|log| - 1]), log[|log| - 1]))
  }

  function Run(r: Receiver, log: seq<Io>): Receiver {
    if log == [] then r else Step(Run(r, log[..|log| - 1]), log[|log| - 1])
  }

  lemma RunNothing(r: Receiver)
    ensures Run(r, []) == r && Possible(r, [])
  {
  }

  lemma RunSnoc(r: Receiver, log: seq<Io>, io: Io)
    ensures Run(r, log + [io]) == Step(Run(r, log), io)
    ensures Possible(r, log + [io]) <==> Possible(r, log) && Awaits(Run(r, log), io)
  {
    assert (log + [io])[..|log|] == log;
  }
}
