/** rcopy.c: the sending program, over the ring window and a packet buffer, proved to go through
    exactly the states of the sender machine. */
module Rcopy {
  import opened Bytes
  import opened Checksum
  import opened Codec
  import opened SystemCalls
  import opened SenderWindow
  import opened SenderMachine
  import SS = SenderSafety
  import ST = SenderTermination

  /** The states of the program's loop, named after the constants of the C code. */
  datatype State = InFilename | InSendData | InWaitOnAck | InSendEof | InDone

  /** Where the machine is when the program enters a state. */
  function PlaceOf(state: State): Place {
    match state
    case InFilename => SendFilename(0)
    case InSendData => SendData
    case InWaitOnAck => PollOneSec(0)
    case InSendEof => SendEof(0)
    case InDone => Done
  }

  /** What followed the filename: nothing of use, a refusal, or an agreement. */
  datatype Answer = NoAnswer | Refused | Agreed

  /** The network and the file system are a store of what `read` and `poll` will find: the pieces of
      the file and then its end, or a failure if `readFails`; and for each poll a datagram or nothing.
      When the store is used up nothing arrives. */
  class RcopyInfo {
    const order: Order
    const cfg: Config
    const readFails: bool
    var window: Window?
    var fileDone: bool
    var hadError: bool
    var retryCount: nat
    var controlSeq: U32

    var inputFile: seq<seq<Byte>>
    var inbox: seq<Option<Datagram>>
    var outbox: seq<Datagram>

    ghost const file: seq<seq<Byte>>
    ghost const store: seq<Option<Datagram>>
    ghost var chunks: seq<seq<Byte>>
    ghost var log: seq<Io>

    ghost function Footprint(): set<object>
      reads this
    {
      if window == null then {} else {window, window.entry}
    }

    ghost function View(at: Place): Sender
      reads this, Footprint()
    {
      Sender(cfg, at, if window == null then NO_WINDOW else window.View(),
             fileDone, hadError, retryCount, controlSeq, chunks, outbox)
    }

    ghost predicate Sound()
      reads this, Footprint()
    {
      && cfg.Checked() && FileFits(cfg, file)
      && chunks + inputFile == file && (fileDone ==> inputFile == [])
      && (window != null ==> window.Valid() && window.size == cfg.windowSize)
      && (forall e :: e in inbox && e.Some? ==> |e.value| <= MAX_PACKET)
    }

    /** The log is possible, and the machine it drives is in the state of this object. */
    ghost predicate Follows(at: Place)
      reads this, Footprint()
      requires cfg.Checked()
    {
      Possible(InitialSender(cfg), log) && View(at) == Run(InitialSender(cfg), log)
    }

    ghost predicate At(at: Place)
      reads this, Footprint()
    {
      Sound() && FedBy(log, store, inbox) && Follows(at)
    }

    /** `start_state`, and the zeroed structure before it. */
    constructor (order: Order, cfg: Config, file: seq<seq<Byte>>, readFails: bool, store: seq<Option<Datagram>>)
      requires cfg.Checked() && FileFits(cfg, file)
      requires forall e :: e in store && e.Some? ==> |e.value| <= MAX_PACKET
      ensures At(SendFilename(0)) && log == [] && window == null && retryCount == 0
      ensures this.cfg == cfg && this.file == file && this.readFails == readFails && inputFile == file
      ensures this.store == store && inbox == store
    {
      this.order, this.cfg, this.readFails := order, cfg, readFails;
      window, fileDone, hadError, retryCount, controlSeq := null, false, false, 0, FIRST_SEQ;
      inputFile, inbox, outbox := file, store, [];
      this.file, this.store, chunks, log := file, store, [], [];
    }

    /** The machine meets one more event, and is again in the state of this object. */
    ghost method Record(was: Sender, io: Io, at: Place)
      requires cfg.Checked() && Possible(InitialSender(cfg), log)
      requires was == Run(InitialSender(cfg), log) && Awaits(was, io) && View(at) == Step(was, io)
      modifies this`log
      ensures log == old(log) + [io] && Follows(at)
    {
      RunSnoc(InitialSender(cfg), log, io);
      log := log + [io];
    }

    /** `safeSendto`: the error injector works on a copy, so what is submitted is the buffer. */
    method SafeSendto(packet: array<Byte>, len: nat)
      requires len <= packet.Length
      modifies this`outbox
      ensures outbox == old(outbox) + [packet[..len]]
    {
      outbox := outbox + [packet[..len]];
    }

    /** `handle_rr` */
    method HandleRr(packet: array<Byte>, len: nat, ghost at: Place)
      requires window != null && window.Valid() && len <= packet.Length
      requires Intact(packet[..len]) && packet[6] == FLAG_RR
      modifies window, window.entry
      ensures window.Valid()
      ensures View(at) == Control(old(View(at)), packet[..len])
    {
      ControlOf(View(at), packet[..len]);
      hide Encode, Decode, Control, Intact, Window.Valid;
      if len < HEADER_LEN + 4 {
        return;
      }
      var rrSeq := ReadU32(order, packet, HEADER_LEN);
      assert packet[..len][7..11] == packet[7..11];
      window.Rr(rrSeq);
    }

    /** `handle_reject` and `resend_packet` */
    method HandleReject(packet: array<Byte>, len: nat, ghost at: Place)
      requires window != null && window.Valid() && len <= packet.Length
      requires Intact(packet[..len]) && packet[6] == FLAG_SREJ
      modifies this`outbox
      ensures View(at) == Control(old(View(at)), packet[..len])
    {
      ControlOf(View(at), packet[..len]);
      hide Encode, Decode, Control, Intact, Window.Holds;
      if len < HEADER_LEN + 4 {
        return;
      }
      var missingSeq := ReadU32(order, packet, HEADER_LEN);
      assert packet[..len][7..11] == packet[7..11];
      var entry := window.Find(missingSeq);
      if entry.Some? {
        Resend(entry.value);
      }
    }

    /** The test and dispatch in the loop of `process_controls`. */
    method HandleControl(packet: array<Byte>, len: nat, ghost at: Place) returns (counted: nat)
      requires window != null && window.Valid() && len <= packet.Length && len <= 0x1_0000
      modifies this`outbox, window, window.entry
      ensures window.Valid()
      ensures View(at) == Control(old(View(at)), packet[..len])
      ensures counted == Counted(packet[..len])
    {
      hide Encode, U32Of, Decode, Intact;
      counted := 0;
      var ok := CheckPacket(order, packet, len);
      if ok {
        if packet[6] == FLAG_RR {
          HandleRr(packet, len, at);
          counted := 1;
        } else if packet[6] == FLAG_SREJ {
          HandleReject(packet, len, at);
          counted := 1;
        }
      }
    }

    /** One pass of the loop in `process_controls`. */
    method ProcessOne(packet: array<Byte>, oneSec: bool, count: nat) returns (counted: nat)
      requires Sound() && FedBy(log, store, inbox) && window != null && packet.Length == MAX_PACKET
      requires Follows(Polling(oneSec, count)) && inbox != [] && inbox[0].Some?
      modifies this`inbox, this`outbox, this`log, window, window.entry, packet
      ensures Sound() && FedBy(log, store, inbox) && Follows(Polling(oneSec, counted))
      ensures inbox == old(inbox)[1..]
    {
      hide Decode, Run, Possible, FedBy, Control, FilenameStep, EofStep, FileFits, Window.Valid;
      ghost var was := View(Polling(oneSec, count));
      var len;
      len, inbox := SafeRecvfrom(packet, inbox, log, store);
      var more := HandleControl(packet, len, Polling(oneSec, count));
      counted := count + more;
      Record(was, Received(packet[..len]), Polling(oneSec, counted));
    }

    /** The poll that found nothing ends `process_controls`. */
    ghost method RecordTimeout(from: Place, to: Place)
      requires Sound() && Follows(from) && FedBy(log + [Timeout], store, inbox)
      requires Awaits(View(from), Timeout) && View(to) == Step(View(from), Timeout)
      modifies this`log
      ensures Sound() && Follows(to) && FedBy(log, store, inbox)
    {
      Record(View(from), Timeout, to);
    }

    /** The same for the poll at the end of `process_controls`. */
    ghost method EndPolling(oneSec: bool, count: nat)
      requires Sound() && Follows(Polling(oneSec, count)) && FedBy(log + [Timeout], store, inbox)
      modifies this`log
      ensures At(if oneSec then CheckControls(count) else SendData)
    {
      hide Run, Possible, FedBy, FilenameStep, EofStep, Control, FileFits, Window.Valid;
      RecordTimeout(Polling(oneSec, count), if oneSec then CheckControls(count) else SendData);
    }

    /** `process_controls`: handles every datagram found until a poll finds none. */
    method ProcessControls(oneSec: bool) returns (count: nat)
      requires At(Polling(oneSec, 0)) && window != null
      modifies this`inbox, this`outbox, this`log, window, window.entry
      ensures At(if oneSec then CheckControls(count) else SendData)
      ensures |inbox| <= |old(inbox)| && (|inbox| == |old(inbox)| ==> inbox == [] && count == 0)
    {
      hide Decode, Run, Possible, FedBy, Step, FileFits, Window.Valid;
      var packet := new Byte[MAX_PACKET];
      count := 0;
      var ready;
      ready, inbox := PollCall(inbox, log, store);
      while ready
        invariant Sound() && Follows(Polling(oneSec, count))
        invariant |inbox| <= |old(inbox)| && (count > 0 ==> |inbox| < |old(inbox)|)
        invariant ready ==> FedBy(log, store, inbox) && inbox != [] && inbox[0].Some?
        invariant !ready ==> FedBy(log + [Timeout], store, inbox)
        invariant !ready && |inbox| == |old(inbox)| ==> inbox == []
        decreases |inbox|, ready
      {
        count := ProcessOne(packet, oneSec, count);
        ready, inbox := PollCall(inbox, log, store);
      }
      EndPolling(oneSec, count);
    }

    /** `make_packet` on a fresh buffer, and `safeSendto`. */
    method BuildAndSend(seqNo: U32, flag: Byte, data: seq<Byte>) returns (packet: array<Byte>, packetLen: nat)
      requires |data| <= MAX_DATA
      modifies this`outbox
      ensures fresh(packet) && packetLen <= packet.Length
      ensures packet[..packetLen] == Encode(Packet(seqNo, flag, data))
      ensures outbox == old(outbox) + [Encode(Packet(seqNo, flag, data))]
    {
      hide Encode;
      packet := new Byte[MAX_PACKET];
      packetLen := MakePacket(order, packet, seqNo, flag, data);
      SafeSendto(packet, packetLen);
    }

    /** One chunk is sent and kept in the window. */
    method SendAndKeep(data: seq<Byte>, ghost at: Place)
      requires window != null && window.Valid() && window.View().IsOpen() && |data| <= MAX_DATA
      modifies this`outbox, window, window.entry
      ensures window.Valid()
      ensures var n, was := old(window.current), old(View(at));
              var d := Encode(DataPacket(n, data));
              View(at) == was.Submit(d).(window := was.window.Add(n, d))
    {
      hide Encode, Decode;
      var sendSeq := window.current;
      var packet, packetLen := BuildAndSend(sendSeq, FLAG_DATA, data);
      window.Add(sendSeq, packet, packetLen);
    }

    /** `read`: the next piece of the file, or nothing at its end. */
    method ReadFile() returns (data: seq<Byte>)
      requires Sound()
      modifies this`inputFile, this`chunks
      ensures Sound() && chunks + inputFile == file
      ensures data == NextPiece(old(inputFile)) && (data == [] <==> old(inputFile) == []) && |data| <= cfg.bufferSize
      ensures inputFile == if data == [] then [] else old(inputFile)[1..]
      ensures chunks == if data == [] then old(chunks) else old(chunks) + [data]
    {
      data := NextPiece(inputFile);
      if inputFile != [] {
        assert file[|chunks|] == data && file[|chunks|] in file;
        inputFile := inputFile[1..];
        chunks := chunks + [data];
      }
    }

    /** The body of the loop in `send_data_state` for a chunk that was read, up to the poll. */
    method SendOne(data: seq<Byte>, ghost was: Sender)
      requires Sound() && FedBy(log, store, inbox) && window != null && data != [] && |data| <= cfg.bufferSize
      requires was.at == SendData && MaySend(was) && View(SendData) == was.(chunks := was.chunks + [data])
      requires Possible(InitialSender(cfg), log) && was == Run(InitialSender(cfg), log)
      modifies this`outbox, this`log, this`retryCount, window, window.entry
      ensures At(PollNow) && retryCount == 0
    {
      hide Decode, Run, Possible, Encode, FileFits, FilenameStep, WaitStep, EofStep, Control;
      FedMore(log, Io.Read(data), store, inbox);
      hide FedBy;
      SendAndKeep(data, SendData);
      retryCount := 0;
      Record(was, Io.Read(data), PollNow);
    }

    /** One pass of the loop in `send_data_state`: the read fails, or the end of the file is noted, or a
        packet is sent and the control packets that are there are handled. */
    method SendNext() returns (failed: bool)
      requires At(SendData) && window != null && MaySend(View(SendData))
      modifies this`outbox, this`chunks, this`log, this`inputFile, this`retryCount, this`fileDone, this`hadError,
               this`inbox, window, window.entry
      ensures At(if failed then Done else SendData) && |inbox| <= |old(inbox)|
      ensures failed <==> old(inputFile) == [] && readFails
      ensures if old(inputFile) == [] then (!failed ==> fileDone) && inputFile == []
                                         && inbox == old(inbox) && retryCount == old(retryCount)
              else !fileDone && |inputFile| < |old(inputFile)| && retryCount == 0
    {
      hide Decode, Run, Possible, Encode, FedBy, Control, FilenameStep, WaitStep, EofStep, FileFits, Window.Valid;
      ghost var was := View(SendData);
      var data := ReadFile();
      if |data| == 0 {
        failed := FileEnds();
      } else {
        failed := false;
        SendOne(data, was);
        var _ := ProcessControls(false);
      }
    }

    /** `send_data_state` */
    method SendDataState() returns (next: State)
      requires At(SendData) && window != null
      modifies this`outbox, this`chunks, this`log, this`inputFile, this`retryCount, this`fileDone, this`hadError,
               this`inbox, window, window.entry
      ensures At(PlaceOf(next)) && (next == InWaitOnAck || next == InSendEof || (next == InDone && readFails))
      ensures |inbox| <= |old(inbox)| && |inputFile| <= |old(inputFile)| && (old(fileDone) ==> fileDone)
      ensures |inputFile| == |old(inputFile)| ==> |inbox| == |old(inbox)| && retryCount == old(retryCount)
      ensures retryCount == old(retryCount) || retryCount == 0
    {
      hide Decode, Run, Possible, Encode, FedBy, Control, FilenameStep, WaitStep, EofStep, FileFits, Window.Valid;
      var open := window.IsOpen();
      while open && !fileDone
        invariant At(SendData) && open == window.View().IsOpen()
        invariant |inbox| <= |old(inbox)| && |inputFile| <= |old(inputFile)| && (old(fileDone) ==> fileDone)
        invariant |inputFile| == |old(inputFile)| ==> |inbox| == |old(inbox)| && retryCount == old(retryCount)
        invariant retryCount == old(retryCount) || retryCount == 0
        decreases |inputFile|, !fileDone
      {
        var failed := SendNext();
        if failed {
          return InDone;
        }
        open := window.IsOpen();
      }
      var empty := window.IsEmpty();
      if fileDone && empty {
        next := InSendEof;
      } else {
        next := InWaitOnAck;
      }
      RecordTau(SendData, PlaceOf(next));
    }

    /** `read` has returned nothing more, or an error. */
    method FileEnds() returns (failed: bool)
      requires At(SendData) && MaySend(View(SendData)) && inputFile == []
      modifies this`fileDone, this`hadError, this`log
      ensures At(if failed then Done else SendData)
      ensures failed == readFails && (!failed ==> fileDone)
    {
      hide Decode, Run, Possible, Encode, Control, FilenameStep, WaitStep, EofStep, FileFits, Window.Valid;
      ghost var was := View(SendData);
      failed := readFails;
      if failed {
        FedMore(log, ReadFailed, store, inbox);
        hadError := true;
        Record(was, ReadFailed, Done);
      } else {
        FedMore(log, Io.Read([]), store, inbox);
        fileDone := true;
        Record(was, Io.Read([]), SendData);
      }
    }

    /** A test between two system calls. */
    ghost method RecordTau(from: Place, to: Place)
      requires At(from) && Awaits(View(from), Tau) && View(to) == Step(View(from), Tau)
      modifies this`log
      ensures At(to)
    {
      FedMore(log, Tau, store, inbox);
      Record(View(from), Tau, to);
    }

    /** `resend_packet` */
    method Resend(entry: Datagram)
      modifies this`outbox
      ensures outbox == old(outbox) + [entry]
    {
      outbox := outbox + [entry];
    }

    /** `wait_on_ack_state` */
    method WaitOnAckState() returns (next: State)
      requires At(PollOneSec(0)) && window != null
      modifies this`outbox, this`log, this`retryCount, this`hadError, this`inbox, window, window.entry
      ensures At(PlaceOf(next)) && (next == InSendData || next == InWaitOnAck || next == InDone)
      ensures |inbox| <= |old(inbox)|
      ensures |inbox| == |old(inbox)| && next != InSendData ==> retryCount == old(retryCount) + 1
      ensures |inbox| == |old(inbox)| && next == InSendData ==> !ST.Numberable(cfg, file)
      ensures retryCount == 0 || retryCount <= old(retryCount) + 1
      ensures next != InDone ==> retryCount == 0 || retryCount == old(retryCount) || retryCount < MAX_TRIES
    {
      hide Decode, Run, Possible, Encode, FedBy, Control, FilenameStep, DataStep, EofStep, FileFits;
      hide SS.Inv, Window.Valid;
      var gotControl := ProcessControls(true);
      if gotControl > 0 {
        ghost var was := View(CheckControls(gotControl));
        retryCount := 0;
        RecordTest(was, SendData);
        return InSendData;
      }
      var entry := LowestEntry();
      if entry == None {
        ClosedIfNothingKept();
        RecordTau(CheckControls(0), SendData);
        return InSendData;
      }
      next := RetryOrGiveUp(entry.value);
    }

    /** In the wait for acknowledgements a packet is always kept, for a file that can be numbered. */
    lemma ClosedIfNothingKept()
      requires At(CheckControls(0)) && window != null && window.View().Lowest() == None
      ensures !ST.Numberable(cfg, file)
    {
      hide Decode, Encode, FedBy, Window.Valid;
      SS.RunKeepsInv(cfg, log);
      if ST.Numberable(cfg, file) {
        ST.NumberableOpens(View(CheckControls(0)), file);
      }
    }

    /** `window_lowest` */
    method LowestEntry() returns (entry: Option<Datagram>)
      requires window != null && window.Valid()
      ensures entry == window.View().Lowest()
    {
      entry := window.Lowest();
    }

    /** The last part of `wait_on_ack_state`: the lowest packet is sent again, unless it was the last try. */
    method RetryOrGiveUp(entry: Datagram) returns (next: State)
      requires At(CheckControls(0)) && window != null && window.View().Lowest() == Some(entry)
      modifies this`outbox, this`log, this`retryCount, this`hadError
      ensures At(PlaceOf(next)) && (next == InWaitOnAck || next == InDone)
      ensures retryCount == old(retryCount) + 1 && (next == InWaitOnAck ==> retryCount < MAX_TRIES)
    {
      hide Decode, Run, Possible, Encode, FedBy, Control, FilenameStep, DataStep, EofStep, FileFits, Window.Valid;
      ghost var was := View(CheckControls(0));
      retryCount := retryCount + 1;
      if retryCount >= MAX_TRIES {
        hadError := true;
        RecordTest(was, Done);
        return InDone;
      }
      Resend(entry);
      RecordTest(was, PollOneSec(0));
      next := InWaitOnAck;
    }

    /** A test that also changed this object. */
    ghost method RecordTest(was: Sender, to: Place)
      requires Sound() && FedBy(log, store, inbox)
      requires Possible(InitialSender(cfg), log) && was == Run(InitialSender(cfg), log)
      requires Awaits(was, Tau) && View(to) == Step(was, Tau)
      modifies this`log
      ensures At(to)
    {
      hide Run, Possible, Step, Awaits;
      FedMore(log, Tau, store, inbox);
      Record(was, Tau, to);
    }

    /** `send_eof_state` and `send_final_done` */
    method SendEofState() returns (next: State)
      requires At(SendEof(0)) && window != null
      modifies this`outbox, this`log, this`hadError, this`inbox
      ensures At(Done) && next == InDone && |inbox| <= |old(inbox)|
    {
      hide Decode, Run, Possible, Encode, FedBy, FilenameStep, DataStep, WaitStep, FileFits;
      next := InDone;
      var tries, acked := 0, false;
      while tries < MAX_TRIES && !acked
        invariant At(if acked then Done else SendEof(tries)) && tries <= MAX_TRIES
        invariant |inbox| <= |old(inbox)|
        decreases MAX_TRIES - tries, !acked
      {
        acked := TryEof(tries);
        if !acked {
          tries := tries + 1;
        }
      }
      if !acked {
        ghost var was := View(SendEof(tries));
        hadError := true;
        RecordTest(was, Done);
      }
    }

    /** The end of the file is announced. */
    method SubmitEof(tries: nat)
      requires At(SendEof(tries)) && window != null && tries < MAX_TRIES
      modifies this`outbox, this`log
      ensures At(PollEof(tries))
    {
      hide Decode, Run, Possible, Encode, FedBy, FilenameStep, DataStep, WaitStep, FileFits, Window.Valid;
      ghost var was := View(SendEof(tries));
      var _, _ := BuildAndSend(window.current, FLAG_EOF, []);
      RecordTest(was, PollEof(tries));
    }

    /** One pass of the loop in `send_eof_state`. */
    method TryEof(tries: nat) returns (acked: bool)
      requires At(SendEof(tries)) && window != null && tries < MAX_TRIES
      modifies this`outbox, this`log, this`inbox
      ensures At(if acked then Done else SendEof(tries + 1)) && |inbox| <= |old(inbox)|
    {
      hide Decode, Run, Possible, Encode, FedBy, FilenameStep, DataStep, WaitStep, FileFits, Window.Valid;
      SubmitEof(tries);
      acked := false;
      var ready;
      ready, inbox := PollCall(inbox, log, store);
      if !ready {
        RecordTimeout(PollEof(tries), SendEof(tries + 1));
      } else {
        acked := ReceiveEofAck(tries);
      }
    }

    /** The checks `send_eof_state` makes on a datagram that arrives. */
    method ReadEofAck() returns (acked: bool, ghost d: Datagram)
      requires FedBy(log, store, inbox) && inbox != [] && inbox[0].Some? && |inbox[0].value| <= MAX_PACKET
      modifies this`inbox
      ensures inbox == old(inbox)[1..] && FedBy(log + [Received(d)], store, inbox)
      ensures acked == IsEofAck(d)
    {
      hide Encode, FedBy, Decode, Intact;
      var inPacket := new Byte[MAX_PACKET];
      var inLen;
      inLen, inbox := SafeRecvfrom(inPacket, inbox, log, store);
      d := inPacket[..inLen];
      var ok := CheckPacket(order, inPacket, inLen);
      acked := ok && inPacket[6] == FLAG_EOF_ACK;
    }

    /** The datagram that answers the end of the file, or another one. */
    method ReceiveEofAck(tries: nat) returns (acked: bool)
      requires At(PollEof(tries)) && window != null && inbox != [] && inbox[0].Some?
      modifies this`outbox, this`log, this`inbox
      ensures At(if acked then Done else SendEof(tries + 1)) && inbox == old(inbox)[1..]
    {
      hide Decode, Run, Possible, Encode, FedBy, FilenameStep, DataStep, WaitStep, FileFits, Window.Valid;
      ghost var was := View(PollEof(tries));
      ghost var d;
      acked, d := ReadEofAck();
      if acked {
        var _, _ := BuildAndSend(Wrap32(window.current + 1), FLAG_DONE, []);
      }
      Record(was, Received(d), if acked then Done else SendEof(tries + 1));
    }

    /** `send_filename_packet` and `filename_state` */
    method FilenameState() returns (next: State)
      requires At(SendFilename(0)) && window == null
      modifies this`outbox, this`log, this`hadError, this`inbox, this`controlSeq, this`window
      ensures At(PlaceOf(next)) && |inbox| <= |old(inbox)|
      ensures next == InDone || (next == InSendData && window != null && fresh(window) && fresh(window.entry))
    {
      hide Decode, Run, Possible, Encode, FedBy, DataStep, WaitStep, EofStep, FileFits;
      var tries, answer := 0, NoAnswer;
      while tries < MAX_TRIES && answer == NoAnswer
        invariant answer == NoAnswer ==> At(SendFilename(tries)) && tries <= MAX_TRIES && window == null
        invariant answer == Agreed ==> At(SendData) && window != null && fresh(window) && fresh(window.entry)
        invariant answer == Refused ==> At(Done)
        invariant |inbox| <= |old(inbox)|
        decreases MAX_TRIES - tries, answer == NoAnswer
      {
        answer := TryFilename(tries);
        if answer == NoAnswer {
          tries := tries + 1;
        }
      }
      if answer == Agreed {
        return InSendData;
      }
      if answer == NoAnswer {
        ghost var was := View(SendFilename(tries));
        hadError := true;
        RecordTest(was, Done);
      }
      next := InDone;
    }

    /** The filename is announced. */
    method SubmitFilename(tries: nat)
      requires At(SendFilename(tries)) && window == null && tries < MAX_TRIES
      modifies this`outbox, this`log
      ensures At(PollFilename(tries))
    {
      hide Decode, Run, Possible, Encode, DataStep, WaitStep, EofStep, FileFits, FedBy;
      ghost var was := View(SendFilename(tries));
      FirstSeqStays();
      var p := FilenamePacket(cfg);
      var _, _ := BuildAndSend(controlSeq, FLAG_FILENAME, p.data);
      RecordTest(was, PollFilename(tries));
    }

    /** One pass of the loop in `send_filename_packet`, and the window once the server has agreed. */
    method TryFilename(tries: nat) returns (answer: Answer)
      requires At(SendFilename(tries)) && window == null && tries < MAX_TRIES
      modifies this`outbox, this`log, this`hadError, this`inbox, this`controlSeq, this`window
      ensures answer == NoAnswer ==> At(SendFilename(tries + 1)) && window == null
      ensures answer == Agreed ==> At(SendData) && window != null && fresh(window) && fresh(window.entry)
      ensures answer == Refused ==> At(Done)
      ensures |inbox| <= |old(inbox)|
    {
      hide Decode, Run, Possible, Encode, DataStep, WaitStep, EofStep, FileFits, FedBy;
      SubmitFilename(tries);
      answer := NoAnswer;
      var ready;
      ready, inbox := PollCall(inbox, log, store);
      if !ready {
        RecordTimeout(PollFilename(tries), SendFilename(tries + 1));
      } else {
        answer := ReceiveResponse(tries);
      }
    }

    lemma FirstSeqStays()
      requires cfg.Checked() && window == null && (exists at :: Follows(at))
      ensures controlSeq == FIRST_SEQ
    {
      var at :| Follows(at);
      SS.RunKeepsInv(cfg, log);
      assert SS.Inv(View(at));
    }

    /** The checks `send_filename_packet` makes on a datagram that arrives. */
    method ReadResponse() returns (verdict: Answer, ghost d: Datagram)
      requires FedBy(log, store, inbox) && inbox != [] && inbox[0].Some? && |inbox[0].value| <= MAX_PACKET
      modifies this`inbox
      ensures inbox == old(inbox)[1..] && FedBy(log + [Received(d)], store, inbox)
      ensures verdict == if !IsFilenameResponse(d) then NoAnswer
                         else if |Decode(d).value.data| >= 1 && Decode(d).value.data[0] == 0 then Agreed else Refused
    {
      hide Encode, FedBy, Decode, Intact;
      var inPacket := new Byte[MAX_PACKET];
      var inLen;
      inLen, inbox := SafeRecvfrom(inPacket, inbox, log, store);
      d := inPacket[..inLen];
      var ok := CheckPacket(order, inPacket, inLen);
      if !ok || inPacket[6] != FLAG_FILENAME_RESP {
        verdict := NoAnswer;
      } else {
        verdict := if inLen < HEADER_LEN + 1 || inPacket[HEADER_LEN] != 0 then Refused else Agreed;
      }
    }

    method ReceiveResponse(tries: nat) returns (answer: Answer)
      requires At(PollFilename(tries)) && window == null && inbox != [] && inbox[0].Some?
      modifies this`log, this`hadError, this`inbox, this`controlSeq, this`window
      ensures answer == NoAnswer ==> At(SendFilename(tries + 1)) && window == null
      ensures answer == Agreed ==> At(SendData) && window != null && fresh(window) && fresh(window.entry)
      ensures answer == Refused ==> At(Done)
      ensures inbox == old(inbox)[1..]
    {
      hide Run, Possible, Encode, Decode, FedBy, DataStep, WaitStep, EofStep, FileFits, Window.Valid;
      ghost var was := View(PollFilename(tries));
      ghost var d;
      answer, d := ReadResponse();
      if answer == NoAnswer {
        Record(was, Received(d), SendFilename(tries + 1));
      } else if answer == Refused {
        hadError := true;
        Record(was, Received(d), Done);
      } else {
        OpenWindow(was, d);
      }
    }

    /** The server has agreed: the window is made. */
    method OpenWindow(ghost was: Sender, ghost d: Datagram)
      requires Sound() && FedBy(log + [Received(d)], store, inbox) && window == null
      requires Possible(InitialSender(cfg), log) && was == Run(InitialSender(cfg), log)
      requires was.at.PollFilename? && was == View(was.at)
      requires IsFilenameResponse(d) && |Decode(d).value.data| >= 1 && Decode(d).value.data[0] == 0
      modifies this`log, this`controlSeq, this`window
      ensures At(SendData) && window != null && fresh(window) && fresh(window.entry)
    {
      hide Run, Possible, Encode, Decode, FedBy, DataStep, WaitStep, EofStep, FileFits, Window.Valid;
      controlSeq := Wrap32(controlSeq + 1);
      window := new Window(cfg.windowSize, controlSeq);
      Record(was, Received(d), SendData);
    }

    /** `process_file`: the state loop. Whatever the network and the file hold, it ends, in the state
        the sender machine reaches on what was met on the way; it succeeds only if the machine ended
        without an error. For exactly the files that can be numbered the loop is sure to end. */
    method ProcessFile() returns (result: int)
      requires At(SendFilename(0)) && window == null && retryCount == 0 && ST.Numberable(cfg, file)
      modifies this
      ensures At(Done)
      ensures result == 0 <==> !View(Done).hadError
      ensures |log| <= 24 * (|file| + |store|) + 46
    {
      hide Decode, Run, Possible, Encode, FedBy, FileFits, Step, Window.Valid;
      var state := FilenameState();
      while state != InDone
        invariant At(PlaceOf(state)) && state != InFilename
        invariant state != InDone ==> window != null && fresh(window) && fresh(window.entry)
        invariant state != InDone ==> retryCount < MAX_TRIES
        decreases |inputFile| + |inbox|, !fileDone, MAX_TRIES - retryCount, Rank(state)
      {
        match state {
          case InSendData =>
            state := SendDataState();
          case InWaitOnAck =>
            state := WaitOnAckState();
          case InSendEof =>
            state := SendEofState();
        }
      }
      EventsBounded(Done);
      result := if hadError then -1 else 0;
    }

    /** The events met so far are no more than what was in store accounts for. */
    lemma EventsBounded(at: Place)
      requires At(at) && ST.Numberable(cfg, file)
      ensures |log| <= 24 * (|file| + |store|) + 46
    {
      hide Run, Possible, FedBy, Window.Valid;
      assert ST.HasRead(View(at), file);
      ST.EndsWithin(cfg, file, log);
      DeliveriesFed(log, store, inbox);
    }
  }

  /** What a control packet asks for, by its bytes. */
  lemma ControlOf(s: Sender, d: Datagram)
    requires Intact(d)
    ensures d[6] == FLAG_RR ==>
            Control(s, d) == if |d| < 11 then s else s.(window := s.window.Rr(U32Of(d[7..11])))
    ensures d[6] == FLAG_SREJ ==>
            Control(s, d) == if |d| < 11 || U32Of(d[7..11]) !in s.window.live then s
                             else s.Submit(s.window.live[U32Of(d[7..11])])
  {
    hide Encode, OnesSum;
    assert |d| >= 11 ==> d[7..][..4] == d[7..11];
  }

  function Rank(state: State): nat {
    match state
    case InFilename => 4
    case InSendData => 3
    case InWaitOnAck => 2
    case InSendEof => 1
    case InDone => 0
  }

  /** Where `process_controls` polls, after counting so many control packets. */
  function Polling(oneSec: bool, count: nat): Place {
    if oneSec then PollOneSec(count) else PollNow
  }

  function NextPiece(pieces: seq<seq<Byte>>): seq<Byte> {
    if pieces == [] then [] else pieces[0]
  }
}
