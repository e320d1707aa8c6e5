/** server.c: the child process that receives one file, over the ring buffer and a packet buffer,
    proved to go through exactly the states of the receiver machine. */
module Server {
  import opened Bytes
  import opened Checksum
  import opened Codec
  import opened SystemCalls
  import opened ReceiverBuffer
  import opened ReceiverMachine
  import RT = ReceiverTermination

  /** The states of the child's loop after the fork, named after the constants of the C code. */
  datatype State = InRecvData | InWaitOnDone | InDone

  function PlaceOf(state: State): Place {
    match state
    case InRecvData => RecvData
    case InWaitOnDone => WaitOnDone
    case InDone => Done
  }

  /** The network is a store of what each poll will find; when it is used up nothing arrives. `first` is
      the datagram the server forked for, and `setup` what opening the output file and allocating come to. */
  class ServerInfo {
    const order: Order
    const first: Datagram
    const setup: Setup
    var buffer: Buffer?
    var windowSize: U32
    var bufferSize: U32
    var outputName: seq<Byte>
    var retryCount: nat
    var controlSeq: U32
    var lastAck: Datagram

    var inbox: seq<Option<Datagram>>
    var outbox: seq<Datagram>

    ghost const store: seq<Option<Datagram>>
    ghost var log: seq<Io>

    ghost function Footprint(): set<object>
      reads this
    {
      if buffer == null then {} else {buffer, buffer.entry}
    }

    ghost function View(at: Place): Receiver
      reads this, Footprint()
    {
      Receiver(at, windowSize, bufferSize, outputName, if buffer == null then NO_BUFFER else buffer.View(),
               retryCount, controlSeq, lastAck, outbox)
    }

    ghost predicate Sound()
      reads this, Footprint()
    {
      && (buffer != null ==> buffer.Valid())
      && (forall e :: e in inbox && e.Some? ==> |e.value| <= MAX_PACKET)
    }

    /** The machine started by the fork, driven by the log, is in the state of this object. */
    ghost predicate Follows(at: Place)
      reads this, Footprint()
    {
      Possible(Forked(first, setup), log) && View(at) == Run(Forked(first, setup), log)
    }

    ghost predicate At(at: Place)
      reads this, Footprint()
    {
      Sound() && FedBy(log, store, inbox) && Follows(at)
    }

    /** The structure as `process_client` fills it in before its state loop. */
    ghost predicate Zeroed()
      reads this
    {
      && |first| <= MAX_PACKET
      && buffer == null && retryCount == 0 && controlSeq == 1 && lastAck == [] && outbox == [] && log == []
      && inbox == store && (forall e :: e in store && e.Some? ==> |e.value| <= MAX_PACKET)
    }

    constructor (order: Order, first: Datagram, setup: Setup, store: seq<Option<Datagram>>)
      requires |first| <= MAX_PACKET
      requires forall e :: e in store && e.Some? ==> |e.value| <= MAX_PACKET
      ensures Zeroed() && this.first == first && this.setup == setup && this.store == store
    {
      this.order, this.first, this.setup := order, first, setup;
      buffer, windowSize, bufferSize, outputName := null, 0, 0, [];
      retryCount, controlSeq, lastAck := 0, 1, [];
      inbox, outbox := store, [];
      this.store, log := store, [];
    }

    /** `filename_state`: the announced sizes and the name are read, the response goes out, and the buffer is
        made if the file could be opened. A `calloc` that fails ends the child. */
    method FilenameState() returns (next: State)
      requires Zeroed()
      modifies this`windowSize, this`bufferSize, this`outputName, this`outbox, this`controlSeq, this`buffer
      ensures At(PlaceOf(next)) && inbox == old(inbox) && retryCount == old(retryCount)
      ensures next == InDone || (next == InRecvData && buffer != null && fresh(buffer) && fresh(buffer.entry))
    {
      hide Encode, Decode, U32Of, AnnouncedSize, AnnouncedBufferSize, AnnouncedName, Run, Possible, Buffer.Valid;
      FedFromStart(store);
      RunNothing(Forked(first, setup));
      hide FedBy;
      windowSize, bufferSize, outputName := ReadAnnounced();
      if setup.CannotOpen? {
        SendNumbered(FLAG_FILENAME_RESP, [1]);
        return InDone;
      }
      SendNumbered(FLAG_FILENAME_RESP, [0]);
      if setup.NoMemory? || windowSize >= MAX_BUFFER {
        return InDone;
      }
      buffer := new Buffer(windowSize, FIRST_DATA_SEQ);
      next := InRecvData;
    }

    /** `memcpy` of the first packet into the zeroed structure. */
    method CopyFirst() returns (firstPacket: array<Byte>)
      requires |first| <= MAX_PACKET
      ensures fresh(firstPacket) && firstPacket.Length == MAX_PACKET
      ensures firstPacket[..] == FirstPacket(first)[..MAX_PACKET]
    {
      firstPacket := new Byte[MAX_PACKET](_ => 0);
      forall i | 0 <= i < |first| {
        firstPacket[i] := first[i];
      }
    }

    /** The fields of the first packet: two numbers at the payload, and the name behind them. */
    method ReadAnnounced() returns (window: U32, buffers: U32, name: seq<Byte>)
      requires |first| <= MAX_PACKET
      ensures window == AnnouncedSize(first) && buffers == AnnouncedBufferSize(first) && name == AnnouncedName(first)
    {
      hide U32Of, CString;
      var firstPacket := CopyFirst();
      ghost var copy := FirstPacket(first);
      window := ReadU32(order, firstPacket, HEADER_LEN);
      buffers := ReadU32(order, firstPacket, HEADER_LEN + 4);
      name := ReadString(firstPacket, HEADER_LEN + 8);
      assert firstPacket[7..11] == firstPacket[..][7..11] == copy[7..11];
      assert firstPacket[11..15] == firstPacket[..][11..15] == copy[11..15];
      assert firstPacket[15..] == firstPacket[..][15..] == copy[..MAX_PACKET][15..];
      assert copy[15..] == copy[..MAX_PACKET][15..] + copy[MAX_PACKET..];
      CStringBeforeZeros(copy[..MAX_PACKET][15..], copy[MAX_PACKET..]);
    }

    /** What `open` makes of a pointer into the packet. */
    method ReadString(bytes: array<Byte>, at: nat) returns (text: seq<Byte>)
      requires at <= bytes.Length
      ensures text == CString(bytes[at..])
    {
      text := [];
      var i := at;
      while i < bytes.Length && bytes[i] != 0
        invariant at <= i <= bytes.Length
        invariant CString(bytes[at..]) == text + CString(bytes[i..])
      {
        assert bytes[i..][0] == bytes[i] && bytes[i..][1..] == bytes[i + 1..];
        text := text + [bytes[i]];
        i := i + 1;
      }
    }

    ghost method Record(was: Receiver, io: Io, at: Place)
      requires Possible(Forked(first, setup), log) && was == Run(Forked(first, setup), log)
      requires Awaits(was, io) && View(at) == Step(was, io)
      modifies this`log
      ensures log == old(log) + [io] && Follows(at)
    {
      RunSnoc(Forked(first, setup), log, io);
      log := log + [io];
    }

    /** `make_packet` under the next control number, and `safeSendto`. */
    method SendNumbered(flag: Byte, data: seq<Byte>)
      requires |data| <= MAX_DATA
      modifies this`outbox, this`controlSeq
      ensures outbox == old(outbox) + [Encode(Packet(old(controlSeq), flag, data))]
      ensures controlSeq == Wrap32(old(controlSeq) + 1)
    {
      hide Encode;
      var packet := new Byte[MAX_PACKET];
      var packetLen := MakePacket(order, packet, controlSeq, flag, data);
      controlSeq := Wrap32(controlSeq + 1);
      outbox := outbox + [packet[..packetLen]];
    }

    /** The four bytes `write_u32` leaves in a payload. */
    method Payload(value: U32) returns (payload: seq<Byte>)
      ensures payload == U32Bytes(value)
    {
      var bytes := new Byte[4];
      WriteU32(order, bytes, 0, value);
      payload := bytes[0..4];
    }

    /** `send_rr` */
    method SendRr(ghost at: Place)
      requires buffer != null
      modifies this`outbox, this`controlSeq
      ensures View(at) == old(View(at)).SendRr()
    {
      hide Encode, U32Bytes;
      var payload := Payload(buffer.expected);
      SendNumbered(FLAG_RR, payload);
    }

    /** `send_reject`, always for the expected packet */
    method SendReject(ghost at: Place)
      requires buffer != null
      modifies this`outbox, this`controlSeq
      ensures View(at) == old(View(at)).SendReject()
    {
      hide Encode, U32Bytes;
      var payload := Payload(buffer.expected);
      SendNumbered(FLAG_SREJ, payload);
    }

    /** `send_eof_ack` */
    method SendEofAck(ghost at: Place)
      modifies this`outbox, this`controlSeq, this`lastAck
      ensures View(at) == old(View(at)).SendEofAck()
    {
      hide Encode;
      var packet := new Byte[MAX_PACKET];
      var packetLen := MakePacket(order, packet, controlSeq, FLAG_EOF_ACK, []);
      lastAck := packet[..packetLen];
      controlSeq := Wrap32(controlSeq + 1);
      ResendLastAck();
    }

    /** `resend_last_ack` */
    method ResendLastAck()
      modifies this`outbox
      ensures outbox == old(outbox) + [lastAck]
    {
      outbox := outbox + [lastAck];
    }

    /** The first branch that stores: the expected packet. */
    method AcceptExpectedPacket(n: U32, ghost at: Place)
      requires buffer != null && buffer.Valid() && buffer.size > 0
      modifies this`outbox, this`controlSeq, buffer, buffer.entry
      ensures buffer.Valid()
      ensures View(at) == AcceptExpected(old(View(at)), n)
    {
      hide Encode, Decode, U32Of, U32Bytes, Buffer.Valid;
      buffer.ClearReject(n);
      buffer.WriteReady();
      SendRr(at);
      var later := buffer.HasLater();
      if later {
        var need := buffer.NeedReject();
        if need {
          SendReject(at);
        }
      }
    }

    /** `handle_data_packet` */
    method HandleDataPacket(packet: array<Byte>, packetLen: nat, ghost at: Place)
      requires buffer != null && buffer.Valid() && HEADER_LEN <= packetLen <= packet.Length
      modifies this`outbox, this`controlSeq, buffer, buffer.entry
      ensures buffer.Valid()
      ensures View(at) == HandleData(old(View(at)), U32Of(packet[..4]), packet[7..packetLen])
    {
      hide Encode, Decode, U32Of, U32Bytes, Buffer.Valid, AcceptExpected;
      var seqNo := GetSeq(order, packet);
      var data := packet[HEADER_LEN..packetLen];
      if seqNo < buffer.expected {
        SendRr(at);
        return;
      }
      var fits := buffer.InWindow(seqNo);
      if !fits {
        SendRr(at);
        return;
      }
      buffer.Save(seqNo, data);
      if seqNo == buffer.expected {
        AcceptExpectedPacket(seqNo, at);
      } else {
        var need := buffer.NeedReject();
        if need {
          SendReject(at);
        }
      }
    }

    /** A poll that found nothing. */
    ghost method RecordTimeout(was: Receiver, to: Place)
      requires Sound() && FedBy(log + [Timeout], store, inbox)
      requires Possible(Forked(first, setup), log) && was == Run(Forked(first, setup), log)
      requires Awaits(was, Timeout) && View(to) == Step(was, Timeout)
      modifies this`log
      ensures At(to)
    {
      hide Run, Possible, Forked, Step, Awaits, FedBy, Buffer.Valid;
      Record(was, Timeout, to);
    }

    /** `recv_data_state` */
    method RecvDataState() returns (next: State)
      requires At(RecvData) && buffer != null
      modifies this`outbox, this`controlSeq, this`lastAck, this`retryCount, this`inbox, this`log, buffer, buffer.entry
      ensures At(PlaceOf(next)) && |inbox| <= |old(inbox)|
      ensures next == InRecvData ==> |inbox| < |old(inbox)|
      ensures next == InWaitOnDone ==> retryCount == 0
    {
      hide Encode, Decode, Run, Possible, Forked, FedBy, HandleData, WaitStep, Buffer.Valid;
      var ready;
      ready, inbox := PollCall(inbox, log, store);
      if !ready {
        RecordTimeout(View(RecvData), Place.Done);
        return InDone;
      }
      next := ReceiveOne();
    }

    /** `handle_eof_packet` */
    method HandleEofPacket()
      modifies this`outbox, this`controlSeq, this`lastAck, this`retryCount
      ensures View(WaitOnDone) == old(View(RecvData)).SendEofAck().(retryCount := 0, at := WaitOnDone)
    {
      SendEofAck(WaitOnDone);
      retryCount := 0;
    }

    /** The part of `recv_data_state` after a poll that found a datagram. */
    method ReceiveOne() returns (next: State)
      requires At(RecvData) && buffer != null && inbox != [] && inbox[0].Some?
      modifies this`outbox, this`controlSeq, this`lastAck, this`retryCount, this`inbox, this`log, buffer, buffer.entry
      ensures At(PlaceOf(next)) && inbox == old(inbox)[1..] && next != InDone
      ensures next == InWaitOnDone ==> retryCount == 0
    {
      hide Encode, Decode, Intact, U32Of, Run, Possible, Forked, FedBy, HandleData, WaitStep, Buffer.Valid;
      ghost var was := View(RecvData);
      var packet := new Byte[MAX_PACKET];
      var packetLen;
      packetLen, inbox := SafeRecvfrom(packet, inbox, log, store);
      ghost var d := packet[..packetLen];
      next := InRecvData;
      var ok := CheckPacket(order, packet, packetLen);
      if ok && packet[6] == FLAG_DATA {
        HandleDataPacket(packet, packetLen, RecvData);
      } else if ok && packet[6] == FLAG_EOF {
        HandleEofPacket();
        next := InWaitOnDone;
      }
      Record(was, Received(d), PlaceOf(next));
    }

    /** `wait_on_done_state` */
    method WaitOnDoneState() returns (next: State)
      requires At(WaitOnDone) && buffer != null
      modifies this`outbox, this`retryCount, this`inbox, this`log
      ensures At(PlaceOf(next)) && |inbox| <= |old(inbox)| && next != InRecvData
      ensures next == InWaitOnDone && |inbox| == |old(inbox)| ==> retryCount == old(retryCount) + 1
      ensures next == InWaitOnDone && retryCount != old(retryCount) ==> retryCount < MAX_TRIES
    {
      hide Encode, Decode, Run, Possible, Forked, FedBy, ReceiveStep, Buffer.Valid;
      ghost var was := View(WaitOnDone);
      var ready;
      ready, inbox := PollCall(inbox, log, store);
      if !ready {
        retryCount := retryCount + 1;
        if retryCount >= MAX_TRIES {
          RecordTimeout(was, Place.Done);
          return InDone;
        }
        ResendLastAck();
        RecordTimeout(was, WaitOnDone);
        return InWaitOnDone;
      }
      next := AwaitDone();
    }

    /** The part of `wait_on_done_state` after a poll that found a datagram. */
    method AwaitDone() returns (next: State)
      requires At(WaitOnDone) && inbox != [] && inbox[0].Some?
      modifies this`outbox, this`inbox, this`log
      ensures At(PlaceOf(next)) && inbox == old(inbox)[1..] && next != InRecvData
    {
      hide Encode, Decode, Intact, Run, Possible, Forked, FedBy, ReceiveStep, Buffer.Valid;
      ghost var was := View(WaitOnDone);
      var packet := new Byte[MAX_PACKET];
      var packetLen;
      packetLen, inbox := SafeRecvfrom(packet, inbox, log, store);
      ghost var d := packet[..packetLen];
      next := InWaitOnDone;
      var ok := CheckPacket(order, packet, packetLen);
      if ok && packet[6] == FLAG_DONE {
        next := InDone;
      } else if ok && packet[6] == FLAG_EOF {
        ResendLastAck();
      }
      Record(was, Received(d), PlaceOf(next));
    }

    /** The state loop of `process_client`. Whatever the network holds, the child ends, in the state the
        receiver machine reaches on what was met on the way. */
    method ProcessClient()
      requires Zeroed()
      modifies this
      ensures At(Done)
      ensures |log| <= |store| + 10
    {
      hide Encode, Decode, Run, Possible, Forked, FedBy, Step, Buffer.Valid;
      var state := FilenameState();
      while state != InDone
        invariant At(PlaceOf(state))
        invariant state != InDone ==> buffer != null && fresh(buffer) && fresh(buffer.entry)
        invariant state == InWaitOnDone ==> retryCount < MAX_TRIES
        decreases |inbox|, state != InDone, state == InRecvData, MAX_TRIES - retryCount
      {
        match state {
          case InRecvData => state := RecvDataState();
          case InWaitOnDone => state := WaitOnDoneState();
        }
      }
      EventsBounded(Done);
    }

    /** The events met so far are no more than what was in store accounts for. */
    lemma EventsBounded(at: Place)
      requires At(at)
      ensures |log| <= |store| + 10
    {
      hide Run, Possible, Forked, FedBy, Buffer.Valid;
      RT.EndsWithin(first, setup, log);
      DeliveriesFed(log, store, inbox);
    }
  }
}
