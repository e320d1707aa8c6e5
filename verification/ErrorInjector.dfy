/** PacketManager.cpp and its message events: what becomes of one datagram handed to `sendto`. */
module ErrorInjector {
  import opened Bytes
  import opened Codec

  /** The message events that can be registered: one keeps statistics, one drops, one flips. */
  datatype Event =
    | InfoSeqNo
    | ErrorDrop(dropAll: bool, dropList: seq<U32>)
    | ErrorFlipBits

  /** The return codes of `IMsgEvent::run`. */
  const NO_CHANGE := 0
  const CHANGED := 1
  const DROPPED := 2

  /** What is put on the wire for one submitted datagram. */
  datatype Wire = Dropped | Sent(datagram: Datagram)

  /** The channel may carry a submitted datagram as it is or with one byte complemented. */
  ghost predicate MayCarry(submitted: Datagram, wire: Datagram) {
    wire == submitted || exists i :: 0 <= i < |submitted| && wire == Complement(submitted, i)
  }

  predicate Drops(event: Event, msgNo: U32) {
    event.ErrorDrop? && (event.dropAll || msgNo in event.dropList)
  }

  /** One position of a datagram of the given length for each of a number of events. */
  predicate BytesIn(positions: seq<nat>, len: nat, count: nat) {
    |positions| == count && (forall i :: 0 <= i < count ==> positions[i] < len)
  }

  /** The random choices made during one send: the byte each registered standard event would flip,
      whether the error rate strikes, which of the random events is picked, and the byte it would flip. */
  datatype Chance = Chance(standardFlips: seq<nat>, strikes: bool, which: nat, byteToFlip: nat)
  {
    predicate Fits(standard: seq<Event>, len: nat) {
      BytesIn(standardFlips, len, |standard|) && byteToFlip < len
    }
  }

  /** What the standard events make of a datagram: all of them run, until one drops it. */
  function AfterStandard(events: seq<Event>, msgNo: U32, flips: seq<nat>, d: Datagram): (w: Wire)
    requires BytesIn(flips, |d|, |events|)
    ensures w.Sent? ==> |w.datagram| == |d|
  {
    if events == [] then Sent(d)
    else if Drops(events[0], msgNo) then Dropped
    else AfterStandard(events[1..], msgNo, flips[1..],
                       if events[0].ErrorFlipBits? then Complement(d, flips[0]) else d)
  }

  /** The outcome of one send, as a function of the registered events and the random choices: every
      standard event, and then at most one random one. */
  function Outcome(standard: seq<Event>, random: seq<Event>, msgNo: U32, chance: Chance, d: Datagram): Wire
    requires chance.Fits(standard, |d|)
  {
    var wire := AfterStandard(standard, msgNo, chance.standardFlips, d);
    if chance.strikes && chance.which < |random| then
      var event := random[chance.which];
      if wire.Dropped? || Drops(event, msgNo) then Dropped
      else if event.ErrorFlipBits? then Sent(Complement(wire.datagram, chance.byteToFlip))
      else wire
    else wire
  }

  /** The settings code registers flips only as random events, never as standard ones. */
  predicate NoStandardFlip(standard: seq<Event>) {
    forall e :: e in standard ==> !e.ErrorFlipBits?
  }

  /** Without a flip among them the standard events drop a datagram or leave it alone. */
  lemma {:induction false} StandardLeavesAlone(events: seq<Event>, msgNo: U32, flips: seq<nat>, d: Datagram)
    requires BytesIn(flips, |d|, |events|) && NoStandardFlip(events)
    ensures AfterStandard(events, msgNo, flips, d)
            == if exists e :: e in events && Drops(e, msgNo) then Dropped else Sent(d)
  {
    if events != [] {
      assert events == [events[0]] + events[1..];
      StandardLeavesAlone(events[1..], msgNo, flips[1..], d);
    }
  }

  /** Every standard event runs on what the ones before it left, unless one of them dropped it. */
  lemma {:induction false} StandardRunsAll(events: seq<Event>, last: Event, msgNo: U32, flips: seq<nat>, flip: nat,
                                           d: Datagram)
    requires BytesIn(flips, |d|, |events|) && flip < |d|
    ensures var before := AfterStandard(events, msgNo, flips, d);
            AfterStandard(events + [last], msgNo, flips + [flip], d)
            == if before.Dropped? || Drops(last, msgNo) then Dropped
               else if last.ErrorFlipBits? then Sent(Complement(before.datagram, flip))
               else before
  {
    if events == [] {
      assert events + [last] == [last] && flips + [flip] == [flip] && [last][1..] == [] && [flip][1..] == [];
    } else {
      assert (events + [last])[1..] == events[1..] + [last] && (flips + [flip])[1..] == flips[1..] + [flip];
      StandardRunsAll(events[1..], last, msgNo, flips[1..], flip,
                      if events[0].ErrorFlipBits? then Complement(d, flips[0]) else d);
    }
  }

  /** What becomes of one particular send without standard flips: it is dropped exactly if a standard
      event or the random event that was picked drops it; otherwise one byte is complemented exactly if
      the error rate strikes and a flip was picked. In particular, when the rate does not strike and no
      standard event drops it, it goes out intact. */
  lemma FateExactly(standard: seq<Event>, random: seq<Event>, msgNo: U32, chance: Chance, d: Datagram)
    requires chance.Fits(standard, |d|) && NoStandardFlip(standard)
    ensures var wire := Outcome(standard, random, msgNo, chance, d);
            var picked := if chance.strikes && chance.which < |random| then Some(random[chance.which]) else None;
            && (wire.Dropped? <==> (exists e :: e in standard && Drops(e, msgNo))
                                   || (picked.Some? && Drops(picked.value, msgNo)))
            && (wire.Sent? && picked.Some? && picked.value.ErrorFlipBits? ==>
                && |wire.datagram| == |d|
                && forall k :: 0 <= k < |d| ==>
                    wire.datagram[k] == if k == chance.byteToFlip then 255 - d[k] else d[k])
            && (wire.Sent? && (picked.Some? ==> !picked.value.ErrorFlipBits?) ==> wire.datagram == d)
  {
    StandardLeavesAlone(standard, msgNo, chance.standardFlips, d);
  }

  /** What `sendErr_init` registers with drops and flips switched on, once or - as in the forked
      child, which calls it again - several times over. */
  predicate Registered(standard: seq<Event>, random: seq<Event>) {
    && (forall e :: e in standard ==> e.InfoSeqNo?)
    && (forall e :: e in random ==> e.ErrorFlipBits? || (e.ErrorDrop? && e.dropAll))
    && (exists i :: 0 <= i < |random| && random[i].ErrorDrop?)
    && (exists i :: 0 <= i < |random| && random[i].ErrorFlipBits?)
  }

  /** With those events the channel can do exactly this to a send: drop it, or carry it intact or with
      one byte, any byte, complemented. */
  lemma OutcomesExactly(standard: seq<Event>, random: seq<Event>, msgNo: U32, d: Datagram, wire: Wire)
    requires Registered(standard, random) && d != []
    ensures (exists c: Chance :: c.Fits(standard, |d|) && Outcome(standard, random, msgNo, c, d) == wire)
            <==> wire.Dropped? || MayCarry(d, wire.datagram)
  {
    forall c: Chance | c.Fits(standard, |d|)
      ensures AfterStandard(standard, msgNo, c.standardFlips, d) == Sent(d)
    {
      StandardLeavesAlone(standard, msgNo, c.standardFlips, d);
    }
    var drop :| 0 <= drop < |random| && random[drop].ErrorDrop?;
    var flip :| 0 <= flip < |random| && random[flip].ErrorFlipBits?;
    assert random[drop] in random && random[flip] in random;
    var none := seq(|standard|, _ => 0);
    if wire.Dropped? {
      assert Outcome(standard, random, msgNo, Chance(none, true, drop, 0), d) == wire;
    } else if wire.datagram == d {
      assert Outcome(standard, random, msgNo, Chance(none, false, 0, 0), d) == wire;
    } else if MayCarry(d, wire.datagram) {
      var i :| 0 <= i < |d| && wire.datagram == Complement(d, i);
      assert Outcome(standard, random, msgNo, Chance(none, true, flip, i), d) == wire;
    }
  }

  class PacketManager {
    var standard: seq<Event>
    var random: seq<Event>
    var msgNo: U32

    constructor ()
      ensures standard == [] && random == [] && msgNo == 0
    {
      standard, random, msgNo := [], [], 0;
    }

    method AddStandard(event: Event)
      modifies this`standard
      ensures standard == old(standard) + [event]
    {
      standard := standard + [event];
    }

    method AddRandom(event: Event)
      modifies this`random
      ensures random == old(random) + [event]
    {
      random := random + [event];
    }

    /** `IMsgEvent::run` of each event class, on the scratch buffer. */
    method Run(event: Event, buf: array<Byte>, number: U32, byteToFlip: nat) returns (result: int)
      requires byteToFlip < buf.Length
      modifies buf
      ensures result == if Drops(event, number) then DROPPED
                        else if event.ErrorFlipBits? then CHANGED else NO_CHANGE
      ensures buf[..] == if event.ErrorFlipBits? then Complement(old(buf[..]), byteToFlip) else old(buf[..])
    {
      result := NO_CHANGE;
      match event {
        case InfoSeqNo =>
        case ErrorDrop(dropAll, dropList) =>
          if dropAll || number in dropList {
            result := DROPPED;
          }
        case ErrorFlipBits =>
          buf[byteToFlip] := 255 - buf[byteToFlip];
          result := CHANGED;
      }
    }

    /** `sendErr_init` with drops and flips on. Calling it once more changes nothing about what can happen. */
    method Init()
      modifies this`standard, this`random
      ensures standard == old(standard) + [InfoSeqNo]
      ensures random == old(random) + [ErrorDrop(true, []), ErrorFlipBits]
      ensures old(standard == [] && random == []) || old(Registered(standard, random)) ==> Registered(standard, random)
    {
      AddStandard(InfoSeqNo);
      AddRandom(ErrorDrop(true, []));
      AddRandom(ErrorFlipBits);
      assert random[|random| - 1].ErrorFlipBits? && random[|random| - 2].ErrorDrop?;
    }

    /** `runMsgEvents` over the standard events: all of them run until one drops. */
    method RunStandard(buf: array<Byte>, number: U32, flips: seq<nat>) returns (result: int)
      requires BytesIn(flips, buf.Length, |standard|)
      modifies buf
      ensures var wire := AfterStandard(standard, number, flips, old(buf[..]));
              if wire.Dropped? then result == DROPPED
              else buf[..] == wire.datagram && result == if NoStandardFlip(standard) then NO_CHANGE else CHANGED
    {
      var i, hasChanged := 0, NO_CHANGE;
      while i < |standard|
        invariant 0 <= i <= |standard|
        invariant AfterStandard(standard[i..], number, flips[i..], buf[..])
                  == AfterStandard(standard, number, flips, old(buf[..]))
        invariant hasChanged == if NoStandardFlip(standard[..i]) then NO_CHANGE else CHANGED
      {
        assert standard[i..][0] == standard[i] && standard[i..][1..] == standard[i + 1..];
        assert flips[i..][0] == flips[i] && flips[i..][1..] == flips[i + 1..];
        assert standard[..i + 1] == standard[..i] + [standard[i]];
        var ran := Run(standard[i], buf, number, flips[i]);
        if ran == DROPPED {
          return DROPPED;
        } else if ran == CHANGED {
          hasChanged := CHANGED;
        }
        i := i + 1;
      }
      assert standard[..i] == standard;
      result := hasChanged;
    }

    /** `processEvents`: every standard event, and then at most one random event, even after a drop. */
    method ProcessEvents(buf: array<Byte>, number: U32, chance: Chance) returns (result: int)
      requires chance.Fits(standard, buf.Length)
      modifies buf
      ensures var wire := Outcome(standard, random, number, chance, old(buf[..]));
              if wire.Dropped? then result == DROPPED else result != DROPPED && buf[..] == wire.datagram
    {
      var ran := RunStandard(buf, number, chance.standardFlips);
      var hasDropped, hasChanged := ran == DROPPED, if ran == DROPPED then NO_CHANGE else ran;
      if chance.strikes && chance.which < |random| {
        ran := Run(random[chance.which], buf, number, chance.byteToFlip);
        if ran == DROPPED {
          hasDropped := true;
        } else {
          hasChanged := ran;
        }
      }
      result := if hasDropped then DROPPED else hasChanged;
    }

    /** `sendto_Err`: events act on a copy, so the caller's datagram is untouched, and what goes on
        the wire is nothing, the datagram, or - as long as no flip is registered as a standard event -
        the datagram with one byte complemented. */
    method SendtoErr(buf: array<Byte>, len: nat, chance: Chance) returns (wire: Wire)
      requires 0 < len <= buf.Length && chance.Fits(standard, len)
      modifies this`msgNo
      ensures msgNo == Wrap32(old(msgNo) + 1)
      ensures wire == Outcome(standard, random, msgNo, chance, buf[..len])
      ensures wire.Sent? && NoStandardFlip(standard) ==> MayCarry(buf[..len], wire.datagram)
    {
      msgNo := Wrap32(msgNo + 1);
      var scratch := new Byte[len];
      forall i | 0 <= i < len {
        scratch[i] := buf[i];
      }
      assert scratch[..] == buf[..len];
      var result := ProcessEvents(scratch, msgNo, chance);
      if NoStandardFlip(standard) {
        StandardLeavesAlone(standard, msgNo, chance.standardFlips, buf[..len]);
      }
      wire := if result == DROPPED then Dropped else Sent(scratch[..]);
    }
  }

  /** A datagram that any host built and the channel carried is either read exactly as it was
      submitted or rejected: damage is the same as loss. */
  lemma CarriedIntactOrRejected(p: Packet, wire: Datagram)
    requires MayCarry(Encode(p), wire)
    ensures Decode(wire) == None || (wire == Encode(p) && Decode(wire) == Some(p))
  {
    if wire != Encode(p) {
      var i :| 0 <= i < |Encode(p)| && wire == Complement(Encode(p), i);
      CorruptionDetected(Encode(p), i);
    }
  }
}
