/** When the child comes to an end: how many events it can meet before it is done. */
module ReceiverTermination {
  import opened Bytes
  import opened Codec
  import opened ReceiverMachine
  import opened SystemCalls

  /** How many events at most are met from a state on while nothing arrives. */
  function PlaceRank(r: Receiver): (rank: nat)
    ensures rank <= 10
  {
    match r.at
    case RecvData => 10
    case WaitOnDone => if r.retryCount + 1 < MAX_TRIES then MAX_TRIES - r.retryCount else 1
    case Done => 0
  }

  /** A timeout lowers the rank, and a delivery never raises it. */
  lemma StepLowersRank(r: Receiver, io: Io)
    requires Awaits(r, io)
    ensures PlaceRank(Step(r, io)) < PlaceRank(r) + Delivered(io)
  {
    hide Encode, Decode, HandleData;
    if r.at.RecvData? && io.Received? && Decode(io.datagram).Some? {
      var p := Decode(io.datagram).value;
      DataKeepsPlace(r, p.seqNo, p.data);
    }
  }

  lemma DataKeepsPlace(r: Receiver, n: U32, data: seq<Byte>)
    ensures HandleData(r, n, data).at == r.at && HandleData(r, n, data).retryCount == r.retryCount
  {
    hide Encode;
  }

  /** Whatever is delivered, the child meets only so many events: one for each delivery, and ten more. */
  lemma {:induction false} EndsWithin(first: Datagram, setup: Setup, log: seq<Io>)
    requires Possible(Forked(first, setup), log)
    ensures |log| + PlaceRank(Run(Forked(first, setup), log)) <= Deliveries(log) + 10
  {
    hide Step, Awaits, Forked, PlaceRank;
    if log != [] {
      var before := log[..|log| - 1];
      EndsWithin(first, setup, before);
      StepLowersRank(Run(Forked(first, setup), before), log[|log| - 1]);
    }
  }
}
