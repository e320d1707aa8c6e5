/** What a state machine meets at its system calls. */
module SystemCalls {
  import opened Bytes
  import opened Codec

  /** What a system call returned, or `Tau` where the code only tests its own state. An empty `Read`
      is the end of the file; `Received` is a `poll` that found a datagram, and that datagram. */
  datatype Io =
    | Tau
    | Read(data: seq<Byte>)
    | ReadFailed
    | Timeout
    | Received(datagram: Datagram)

  const MAX_TRIES := 10

  /** What `read` returns after so many pieces of the file. */
  function NextRead(file: seq<seq<Byte>>, done: nat): seq<Byte> {
    if done < |file| then file[done] else []
  }

  /** What the polls in a log found, in order: nothing, or a datagram. */
  function PollsOf(log: seq<Io>): seq<Option<Datagram>> {
    if log == [] then []
    else
      PollsOf(log[..|log| - 1]) +
      match log[|log| - 1]
      case Timeout => [None]
      case Received(d) => [Some(d)]
      case _ => []
  }

  /** The polls in the log found what the network had in store at the start, one entry each and then
      nothing for ever; `rest` is still in store. */
  ghost predicate FedBy(log: seq<Io>, store: seq<Option<Datagram>>, rest: seq<Option<Datagram>>) {
    var n := |PollsOf(log)|;
    && (forall i :: 0 <= i < n ==> PollsOf(log)[i] == if i < |store| then store[i] else None)
    && rest == if n <= |store| then store[n..] else []
  }

  lemma FedFromStart(store: seq<Option<Datagram>>)
    ensures FedBy([], store, store)
  {
  }

  lemma FedMore(log: seq<Io>, io: Io, store: seq<Option<Datagram>>, rest: seq<Option<Datagram>>)
    requires FedBy(log, store, rest)
    ensures io.Timeout? && rest == [] ==> FedBy(log + [io], store, rest)
    ensures io.Timeout? && rest != [] && rest[0] == None ==> FedBy(log + [io], store, rest[1..])
    ensures io.Received? && rest != [] && rest[0] == Some(io.datagram) ==> FedBy(log + [io], store, rest[1..])
    ensures !io.Timeout? && !io.Received? ==> FedBy(log + [io], store, rest)
  {
    assert (log + [io])[..|log|] == log;
  }

  function Delivered(io: Io): nat {
    if io.Received? then 1 else 0
  }

  /** How many datagrams were delivered in a log. */
  function Deliveries(log: seq<Io>): nat {
    if log == [] then 0 else Deliveries(log[..|log| - 1]) + Delivered(log[|log| - 1])
  }

  lemma DeliveriesSnoc(log: seq<Io>, io: Io)
    ensures Deliveries(log + [io]) == Deliveries(log) + Delivered(io)
  {
    assert (log + [io])[..|log|] == log;
  }

  function FoundAmong(polls: seq<Option<Datagram>>): nat {
    if polls == [] then 0
    else FoundAmong(polls[..|polls| - 1]) + if polls[|polls| - 1].Some? then 1 else 0
  }

  lemma {:induction false} DeliveriesFound(log: seq<Io>)
    ensures Deliveries(log) == FoundAmong(PollsOf(log))
  {
    if log != [] {
      var before := log[..|log| - 1];
      DeliveriesFound(before);
      if log[|log| - 1].Timeout? || log[|log| - 1].Received? {
        assert PollsOf(log)[..|PollsOf(log)| - 1] == PollsOf(before);
      } else {
        assert PollsOf(log) == PollsOf(before);
      }
    }
  }

  lemma {:induction false} FoundAtMost(polls: seq<Option<Datagram>>, limit: nat)
    requires forall i :: limit <= i < |polls| ==> polls[i] == None
    ensures FoundAmong(polls) <= limit
  {
    if polls != [] {
      FoundAtMost(polls[..|polls| - 1], if |polls| <= limit then limit - 1 else limit);
    }
  }

  /** No more is delivered than was in store. */
  lemma DeliveriesFed(log: seq<Io>, store: seq<Option<Datagram>>, rest: seq<Option<Datagram>>)
    requires FedBy(log, store, rest)
    ensures Deliveries(log) <= |store|
  {
    DeliveriesFound(log);
    FoundAtMost(PollsOf(log), |store|);
  }

  /** The tries left. */
  function Left(tries: nat): nat {
    if tries < MAX_TRIES then MAX_TRIES - tries else 0
  }

  /** `pollCall`: a datagram is there, or the wait is over; `rest` is still in store. */
  method PollCall(store: seq<Option<Datagram>>, ghost log: seq<Io>, ghost start: seq<Option<Datagram>>)
    returns (ready: bool, rest: seq<Option<Datagram>>)
    requires FedBy(log, start, store)
    ensures ready ==> rest == store && store != [] && store[0].Some?
    ensures !ready ==> FedBy(log + [Timeout], start, rest)
    ensures !ready ==> rest == if store == [] then [] else store[1..]
  {
    FedMore(log, Timeout, start, store);
    ready := store != [] && store[0].Some?;
    rest := if ready || store == [] then store else store[1..];
  }

  /** `safeRecvfrom` after a poll that found a datagram. */
  method SafeRecvfrom(packet: array<Byte>, store: seq<Option<Datagram>>,
                      ghost log: seq<Io>, ghost start: seq<Option<Datagram>>)
    returns (len: nat, rest: seq<Option<Datagram>>)
    requires FedBy(log, start, store)
    requires store != [] && store[0].Some? && |store[0].value| <= packet.Length
    modifies packet
    ensures len == |store[0].value| && packet[..len] == store[0].value
    ensures rest == store[1..] && FedBy(log + [Received(packet[..len])], start, rest)
  {
    var d := store[0].value;
    FedMore(log, Received(d), start, store);
    len := |d|;
    forall i | 0 <= i < len {
      packet[i] := d[i];
    }
    assert packet[..len] == d;
    rest := store[1..];
  }
}
