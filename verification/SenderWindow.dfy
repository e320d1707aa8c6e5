/** Window.c: the sender's window of unacknowledged packets. */
module SenderWindow {
  import opened Bytes
  import opened Codec
  import opened Ring

  /** The command line check keeps the window size below this. */
  const MAX_WINDOW := 0x4000_0000

  /** The packets numbered `k` and above. */
  function From(m: map<U32, Datagram>, k: int): map<U32, Datagram> {
    map n | n in m && k <= n :: m[n]
  }

  lemma FromStep(m: map<U32, Datagram>, k: U32)
    ensures From(m, k) - {k} == From(m, k + 1)
  {
  }

  /** The window as callers see it: three counters and the datagram kept for each number. */
  datatype Win = Win(size: nat, lower: U32, current: U32, upper: U32, live: map<U32, Datagram>)
  {
    /** Exactly the numbers from `lower` up to `current` are kept, never more than `size` of them.
        The limit `upper` is a 32-bit sum and may have wrapped. */
    ghost predicate Sound() {
      && 0 < size < MAX_WINDOW
      && lower <= current <= lower + size
      && upper == Wrap32(lower + size)
      && (forall n: U32 :: n in live <==> lower <= n < current)
    }

    predicate IsOpen() {
      current < upper
    }

    predicate IsEmpty() {
      lower == current
    }

    /** The window after `d` was sent under the number `n`. */
    function Add(n: U32, d: Datagram): Win {
      this.(live := live[n := d], current := if n == current then Wrap32(current + 1) else current)
    }

    /** Where an RR for `r` moves the lower edge: never back, and never beyond what was sent. */
    function Acked(r: U32): U32 {
      Max(lower, Min(r, current))
    }

    function Rr(r: U32): Win {
      this.(lower := Acked(r),
            upper := Wrap32(Acked(r) + size),
            live := From(live, Acked(r)))
    }

    function Find(n: U32): Option<Datagram> {
      if n in live then Some(live[n]) else None
    }

    function Lowest(): Option<Datagram> {
      if lower < current then Find(lower) else None
    }
  }

  function InitialWin(size: nat, start: U32): Win {
    Win(size, start, start, Wrap32(start + size), map[])
  }

  /** The `Window` structure before `window_init`: all bytes zero. */
  const NO_WINDOW := Win(0, 0, 0, 0, map[])

  /** The 32-bit comparison in `window_open` answers as the unbounded one would exactly as long as
      `lower + size` has not reached 2^32; from then on the window is closed for good. */
  lemma OpenExactly(w: Win)
    requires w.Sound()
    ensures (w.IsOpen() <==> w.current < w.lower + w.size) <==> w.lower + w.size < TWO32
    ensures w.lower + w.size >= TWO32 ==> !w.IsOpen()
    ensures w.IsOpen() ==> w.current + 1 < TWO32
  {
  }

  /** Sending the next packet through an open window, or again one still kept, keeps it sound. */
  lemma AddSound(w: Win, n: U32, d: Datagram)
    requires w.Sound() && w.lower <= n <= w.current && (n == w.current ==> w.IsOpen())
    ensures w.Add(n, d).Sound()
  {
  }

  /** What any RR value whatever does to a sound window: it stays sound; the lower edge goes to the
      value if that lies in the window, stays if the value is old, and goes to what was sent if the
      value is beyond; and exactly the packets from the new edge on are still kept, unchanged. */
  lemma RrExactly(w: Win, r: U32)
    requires w.Sound()
    ensures var v := w.Rr(r);
            && v.Sound() && v.size == w.size && v.current == w.current
            && (w.lower <= r <= w.current ==> v.lower == r)
            && (r < w.lower ==> v == w)
            && (w.current < r ==> v.lower == w.current)
            && (forall n: U32 :: n in v.live <==> v.lower <= n < w.current)
            && (forall n :: n in v.live ==> n in w.live && v.live[n] == w.live[n])
  {
    if r < w.lower {
      assert w.Rr(r).live == w.live;
    }
  }

  class Window {
    const entry: array<Slot>
    const size: nat
    var lower: U32
    var current: U32
    var upper: U32
    ghost var live: map<U32, Datagram>

    ghost function View(): Win
      reads this
    {
      Win(size, lower, current, upper, live)
    }

    /** The ring agrees with the map of packets kept. */
    ghost predicate Holds()
      reads this, entry
    {
      0 < size == entry.Length && Represents(entry[..], live)
    }

    ghost predicate Valid()
      reads this, entry
    {
      View().Sound() && Holds()
    }

    /** `window_init` */
    constructor (size: nat, startSeq: U32)
      requires 0 < size < MAX_WINDOW
      ensures Valid() && fresh(entry)
      ensures View() == InitialWin(size, startSeq)
    {
      this.entry := new Slot[size](_ => EMPTY);
      this.size := size;
      this.lower := startSeq;
      this.current := startSeq;
      this.upper := Wrap32(startSeq + size);
      this.live := map[];
    }

    /** `window_open`: there is room for another packet, and the limit has not wrapped. */
    method IsOpen() returns (open: bool)
      ensures open == View().IsOpen()
      ensures View().Sound() ==> (open <==> current < lower + size && lower + size < TWO32)
    {
      open := current < upper;
    }

    /** `window_empty`: no packet is kept. */
    method IsEmpty() returns (empty: bool)
      ensures empty == View().IsEmpty()
      ensures View().Sound() ==> (empty <==> live == map[])
    {
      assert View().Sound() && lower < current ==> lower in live;
      empty := lower == current;
    }

    /** `window_add` */
    method Add(seqNo: U32, packet: array<Byte>, packetLen: nat)
      requires Valid() && lower <= seqNo <= current && (seqNo == current ==> View().IsOpen())
      requires packetLen <= packet.Length
      modifies this`current, this`live, entry
      ensures Valid()
      ensures View() == old(View()).Add(seqNo, packet[..packetLen])
    {
      var spot := seqNo % size;
      Stored(entry[..], live, seqNo, packet[..packetLen]);
      AddSound(View(), seqNo, packet[..packetLen]);
      ghost var before := entry[..];
      entry[spot] := Slot(seqNo, true, packet[..packetLen]);
      assert entry[..] == before[spot := entry[spot]];
      live := live[seqNo := packet[..packetLen]];
      if seqNo == current {
        current := Wrap32(current + 1);
      }
    }

    /** `window_find`: finds exactly the packets kept, with the bytes that were sent. */
    method Find(seqNo: U32) returns (found: Option<Datagram>)
      requires Holds()
      ensures found == View().Find(seqNo)
    {
      var spot := seqNo % size;
      Lookup(entry[..], live, seqNo);
      assert entry[spot] == entry[..][spot];
      if entry[spot].used && entry[spot].seqNo == seqNo {
        found := Some(entry[spot].bytes);
      } else {
        found := None;
      }
    }

    /** `window_lowest`: the kept packet with the least number from the lower edge on. In a sound
        window that is the one at the edge itself, and nothing only if nothing is kept. */
    method Lowest() returns (found: Option<Datagram>)
      requires Holds()
      ensures found == None ==> forall n: U32 :: lower <= n < current ==> n !in live
      ensures found.Some? ==> exists n: U32 ::
        && lower <= n < current && n in live && found.value == live[n]
        && (forall m: U32 :: lower <= m < n ==> m !in live)
      ensures Valid() ==> found == View().Lowest()
    {
      var seqNo := lower;
      while seqNo < current
        invariant lower <= seqNo && (seqNo <= current || seqNo == lower)
        invariant forall n: U32 :: lower <= n < seqNo ==> n !in live
      {
        found := Find(seqNo);
        if found != None {
          return;
        }
        seqNo := Wrap32(seqNo + 1);
      }
      found := None;
    }

    /** `window_rr`, for any value an RR may carry. */
    method Rr(rrSeq: U32)
      requires Valid()
      modifies this`lower, this`upper, this`live, entry
      ensures Valid()
      ensures View() == old(View()).Rr(rrSeq)
    {
      RrExactly(View(), rrSeq);
      ghost var acked := View().Acked(rrSeq);
      Forget(rrSeq);
      Slide(acked);
      upper := Wrap32(lower + size);
    }

    /** The first loop of `window_rr`: the packets below the RR value are marked unused. */
    method Forget(rrSeq: U32)
      requires Valid()
      modifies this`live, entry
      ensures Holds() && live == From(old(live), View().Acked(rrSeq))
    {
      ghost var was, acked := live, View().Acked(rrSeq);
      assert live == From(was, lower);
      var seqNo := lower;
      while seqNo < rrSeq && seqNo < current
        invariant lower <= seqNo <= acked
        invariant Holds() && live == From(was, seqNo)
      {
        ForgetOne(seqNo);
        FromStep(was, seqNo);
        seqNo := Wrap32(seqNo + 1);
      }
    }

    /** The body of that loop. */
    method ForgetOne(seqNo: U32)
      requires Holds() && seqNo in live
      modifies this`live, entry
      ensures Holds() && live == old(live) - {seqNo}
    {
      var spot := seqNo % size;
      Lookup(entry[..], live, seqNo);
      assert entry[..][spot] == entry[spot];
      if entry[spot].seqNo == seqNo {
        Unmark(entry, live, seqNo);
        live := live - {seqNo};
      }
    }

    /** The second loop of `window_rr`: the lower edge moves up to the first packet still kept. */
    method Slide(ghost edge: U32)
      requires Holds() && lower <= edge <= current
      requires forall n: U32 :: n in live <==> edge <= n < current
      modifies this`lower
      ensures lower == edge
    {
      var at := Find(lower);
      while lower < current && at == None
        invariant lower <= edge
        invariant at == View().Find(lower)
      {
        lower := Wrap32(lower + 1);
        at := Find(lower);
      }
    }
  }
}
