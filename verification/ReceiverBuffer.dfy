/** Buffer.c: the receiver's reorder buffer, the output file behind it, and the reject latch. */
module ReceiverBuffer {
  import opened Bytes
  import opened Ring

  /** `buffer_init` takes the size as an `int`: what does not fit becomes negative, and no table is made. */
  const MAX_BUFFER := 0x8000_0000

  /** The buffer as callers see it. `output` is what has been written to the file so far. */
  datatype Buf = Buf(size: nat, expected: U32, live: map<U32, seq<Byte>>,
                     missingActive: bool, missingSeq: U32, output: seq<Byte>)
  {
    /** Every packet kept is less than `size` away from the expected one. */
    ghost predicate Sound() {
      && size < MAX_BUFFER
      && (forall n :: n in live ==> expected <= n < expected + size && n + 1 < TWO32)
    }

    /** Between two packets nothing that could be written is left in the buffer. */
    ghost predicate Settled() {
      Sound() && expected !in live
    }

    /** `buffer_in_window`: the upper limit is a 32-bit sum. */
    predicate InWindow(n: U32) {
      n >= expected && n < Wrap32(expected + size)
    }

    predicate HasLater() {
      exists n :: n in live && n > expected
    }

    function Save(n: U32, data: seq<Byte>): Buf {
      if n in live then this else this.(live := live[n := data])
    }

    /** One pass of the loop in `buffer_write_ready`. */
    function WriteOne(): Buf
      requires expected in live
    {
      this.(output := output + live[expected], live := live - {expected}, expected := Wrap32(expected + 1))
    }

    function WriteReady(): Buf
      decreases |live|
    {
      if expected in live then WriteOne().WriteReady() else this
    }

    predicate NeedsReject() {
      !missingActive || missingSeq != expected
    }

    function RejectNoted(): Buf {
      this.(missingActive := true, missingSeq := expected)
    }

    function RejectCleared(n: U32): Buf {
      if missingActive && missingSeq == n then this.(missingActive := false) else this
    }
  }

  function InitialBuf(size: nat, start: U32): Buf {
    Buf(size, start, map[], false, 0, [])
  }

  /** The `Buffer` structure before `buffer_init`. */
  const NO_BUFFER := Buf(0, 0, map[], false, 0, [])

  /** The payloads of the packets numbered from `first` up to `last`, in order. */
  function Payloads(live: map<U32, seq<Byte>>, first: U32, last: U32): seq<Byte>
    requires first <= last
    requires forall n: U32 :: first <= n < last ==> n in live
    decreases last - first
  {
    if first == last then [] else live[first] + Payloads(live, first + 1, last)
  }

  /** Written packets leave the run of the rest as it was. */
  lemma {:induction false} PayloadsOfRest(live: map<U32, seq<Byte>>, gone: U32, first: U32, last: U32)
    requires gone < first <= last
    requires forall n: U32 :: first <= n < last ==> n in live
    ensures Payloads(live - {gone}, first, last) == Payloads(live, first, last)
    decreases last - first
  {
    if first < last {
      PayloadsOfRest(live, gone, first + 1, last);
    }
  }

  /** `buffer_write_ready` writes exactly the longest unbroken run of packets that starts at the
      expected one, in order, and keeps exactly the others. */
  lemma {:induction false} DrainsMaximalRun(b: Buf)
    requires b.Sound()
    ensures var w := b.WriteReady();
            && b.expected <= w.expected
            && w.expected !in b.live
            && (forall n: U32 :: b.expected <= n < w.expected ==> n in b.live)
            && w.live == (map n | n in b.live && w.expected <= n :: b.live[n])
            && w.output == b.output + Payloads(b.live, b.expected, w.expected)
            && w == b.(expected := w.expected, live := w.live, output := w.output)
            && w.Settled()
    decreases |b.live|
  {
    if b.expected in b.live {
      var c := b.WriteOne();
      DrainsMaximalRun(c);
      var w := c.WriteReady();
      forall n: U32 | b.expected <= n < w.expected
        ensures n in b.live
      {
        assert n == b.expected || n in c.live;
      }
      PayloadsOfRest(b.live, b.expected, c.expected, w.expected);
    }
  }

  /** The window test is the unbounded one exactly while `expected + size` stays below 2^32; past
      that it turns every packet away. */
  lemma InWindowExactly(b: Buf)
    requires b.Sound()
    ensures (forall n: U32 :: b.InWindow(n) <==> b.expected <= n < b.expected + b.size)
            <==> b.expected + b.size < TWO32
    ensures b.expected + b.size >= TWO32 ==> forall n: U32 :: !b.InWindow(n)
  {
    if b.expected + b.size >= TWO32 {
      assert !b.InWindow(b.expected);
    }
  }

  lemma WriteOneSound(b: Buf)
    requires b.Sound() && b.expected in b.live
    ensures b.WriteOne().Sound() && b.WriteOne().expected == b.expected + 1 && |b.WriteOne().live| < |b.live|
  {
  }

  class Buffer {
    const entry: array<Slot>
    const size: nat
    var expected: U32
    var missingSeq: U32
    var missingActive: bool
    var outputFile: seq<Byte>
    ghost var live: map<U32, seq<Byte>>

    ghost function View(): Buf
      reads this
    {
      Buf(size, expected, live, missingActive, missingSeq, outputFile)
    }

    ghost predicate Valid()
      reads this, entry
    {
      View().Sound() && entry.Length == size && Represents(entry[..], live)
    }

    /** `buffer_init` */
    constructor (size: nat, startSeq: U32)
      requires size < MAX_BUFFER
      ensures Valid() && fresh(entry)
      ensures View() == InitialBuf(size, startSeq)
    {
      this.entry := new Slot[size](_ => EMPTY);
      this.size := size;
      this.expected := startSeq;
      this.missingSeq := 0;
      this.missingActive := false;
      this.outputFile := [];
      this.live := map[];
    }

    /** `buffer_in_window`: less than a window from the expected packet on, and the limit has not wrapped. */
    method InWindow(seqNo: U32) returns (fits: bool)
      ensures fits == View().InWindow(seqNo)
      ensures View().Sound() ==> (fits <==> expected <= seqNo < expected + size && expected + size < TWO32)
    {
      fits := seqNo >= expected && seqNo < Wrap32(expected + size);
    }

    /** `buffer_has`: the slot guard answers exactly whether the packet is kept. */
    method Has(seqNo: U32) returns (has: bool)
      requires Valid() && size > 0
      ensures has <==> seqNo in live
    {
      var spot := seqNo % size;
      Lookup(entry[..], live, seqNo);
      assert entry[..][spot] == entry[spot];
      has := entry[spot].used && entry[spot].seqNo == seqNo;
    }

    /** `buffer_has_later`: a scan of all slots. */
    method HasLater() returns (later: bool)
      requires Valid()
      ensures later == View().HasLater()
    {
      var count := 0;
      while count < size
        invariant 0 <= count <= size
        invariant forall i :: 0 <= i < count ==> !(entry[i].used && entry[i].seqNo > expected)
      {
        if entry[count].used && entry[count].seqNo > expected {
          assert entry[..][count].seqNo in live;
          return true;
        }
        count := count + 1;
      }
      forall n | n in live
        ensures n <= expected
      {
        assert entry[..][n % size] == entry[n % size];
      }
      later := false;
    }

    /** `buffer_save`: a packet already kept is left alone, and no other packet is overwritten. */
    method Save(seqNo: U32, data: seq<Byte>)
      requires Valid() && View().InWindow(seqNo)
      modifies this`live, entry
      ensures Valid()
      ensures View() == old(View()).Save(seqNo, data)
    {
      var spot := seqNo % size;
      var has := Has(seqNo);
      if has {
        return;
      }
      InWindowExactly(View());
      Stored(entry[..], live, seqNo, data);
      ghost var before := entry[..];
      entry[spot] := Slot(seqNo, true, data);
      assert entry[..] == before[spot := entry[spot]];
      live := live[seqNo := data];
    }

    /** `buffer_write_ready`: the number of packets kept falls with every one written. */
    method WriteReady()
      requires Valid() && size > 0
      modifies this`expected, this`outputFile, this`live, entry
      ensures Valid()
      ensures View() == old(View()).WriteReady()
    {
      var has := Has(expected);
      while has
        invariant Valid()
        invariant has <==> expected in live
        invariant View().WriteReady() == old(View()).WriteReady()
        decreases |live|
      {
        WriteOne();
        has := Has(expected);
      }
    }

    /** The body of the loop in `buffer_write_ready`. */
    method WriteOne()
      requires Valid() && expected in live
      modifies this`expected, this`outputFile, this`live, entry
      ensures Valid()
      ensures View() == old(View()).WriteOne()
      ensures |live| < old(|live|)
    {
      hide Represents;
      WriteOneSound(View());
      var spot := expected % size;
      Lookup(entry[..], live, expected);
      assert entry[..][spot] == entry[spot];
      outputFile := outputFile + entry[spot].bytes;
      Unmark(entry, live, expected);
      live := live - {expected};
      expected := Wrap32(expected + 1);
    }

    /** `buffer_need_reject` */
    method NeedReject() returns (need: bool)
      modifies this`missingActive, this`missingSeq
      ensures old(Valid()) ==> Valid()
      ensures need == old(View().NeedsReject())
      ensures View() == if need then old(View()).RejectNoted() else old(View())
    {
      if !missingActive || missingSeq != expected {
        missingActive := true;
        missingSeq := expected;
        return true;
      }
      need := false;
    }

    /** `buffer_clear_reject` */
    method ClearReject(seqNo: U32)
      modifies this`missingActive
      ensures old(Valid()) ==> Valid()
      ensures View() == old(View()).RejectCleared(seqNo)
    {
      if missingActive && missingSeq == seqNo {
        missingActive := false;
      }
    }
  }
}
