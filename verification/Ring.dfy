/** The circular table that both the sender window and the receiver buffer use: the packet of a
    sequence number lives in slot `seq % size`, guarded by a `used` mark and the number itself. */
module Ring {
  import opened Bytes

  datatype Slot = Slot(seqNo: U32, used: bool, bytes: seq<Byte>)

  const EMPTY := Slot(0, false, [])

  /** The table holds exactly the packets of `live`: each is found in its slot, and every slot in
      use belongs to one of them. Unused slots may hold anything. */
  ghost predicate Represents(table: seq<Slot>, live: map<U32, seq<Byte>>) {
    && (live != map[] ==> |table| > 0)
    && (forall n :: n in live ==>
        table[n % |table|].used && table[n % |table|].seqNo == n && table[n % |table|].bytes == live[n])
    && (forall i :: 0 <= i < |table| && table[i].used ==>
        table[i].seqNo in live && table[i].seqNo % |table| == i)
  }

  /** The guard `used && seq` decides membership. */
  lemma Lookup(table: seq<Slot>, live: map<U32, seq<Byte>>, n: U32)
    requires Represents(table, live) && |table| > 0
    ensures table[n % |table|].used && table[n % |table|].seqNo == n <==> n in live
    ensures n in live ==> table[n % |table|].bytes == live[n]
  {
  }

  /** Two numbers closer together than the table is long never share a slot. */
  lemma NoAlias(m: int, n: int, size: int)
    requires 0 < size && m < n < m + size
    ensures m % size != n % size
  {
    var q := n / size - m / size;
    assert n - m == size * q + (n % size - m % size);
    if q <= 0 {
      assert size * q <= 0;
    } else {
      assert size * q >= size;
    }
  }

  /** Storing a packet is safe when every packet held is less than a table's length away. */
  lemma Stored(table: seq<Slot>, live: map<U32, seq<Byte>>, n: U32, bytes: seq<Byte>)
    requires Represents(table, live) && |table| > 0
    requires forall m :: m in live ==> m - |table| < n < m + |table|
    ensures Represents(table[n % |table| := Slot(n, true, bytes)], live[n := bytes])
  {
    forall m | m in live && m != n
      ensures m % |table| != n % |table|
    {
      if m < n {
        NoAlias(m, n, |table|);
      } else {
        NoAlias(n, m, |table|);
      }
    }
  }

  /** Clearing a slot's mark removes the packet it held and no other. */
  lemma Cleared(table: seq<Slot>, live: map<U32, seq<Byte>>, n: U32)
    requires Represents(table, live) && n in live
    ensures Represents(table[n % |table| := table[n % |table|].(used := false)], live - {n})
  {
  }

  /** `entry[seq % size].used = 0` for a packet that is kept. */
  method Unmark(entry: array<Slot>, ghost live: map<U32, seq<Byte>>, seqNo: U32)
    requires Represents(entry[..], live) && seqNo in live
    modifies entry
    ensures Represents(entry[..], live - {seqNo})
  {
    var spot := seqNo % entry.Length;
    Cleared(entry[..], live, seqNo);
    ghost var before := entry[..];
    entry[spot] := entry[spot].(used := false);
    assert entry[..] == before[spot := entry[spot]];
  }
}
