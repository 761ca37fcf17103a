/** The byte totals am_memtracker_sizeinfo reports for one accelerator, and how the other
    registry operations move them. */
module SizeAccounting {
  import opened AmTypes
  import opened MemoryRange
  import opened RangeMap
  import opened PointerTracker

  /** The bucket an entry's bytes go to: tracker-managed device memory, tracker-managed host
      memory, or memory the application allocated itself and registered. */
  datatype MemKind = DeviceMem | HostMem | UserMem

  function KindOf(info: AmPointerInfo): MemKind
  {
    if info.isAmManaged then (if info.isInDeviceMem then DeviceMem else HostMem) else UserMem
  }

  /** What one entry adds to acc's total of kind k. */
  function Share(e: Entry, acc: Accelerator, k: MemKind): nat
  {
    if e.info.acc == acc && KindOf(e.info) == k then e.info.sizeBytes else 0
  }

  /** The bytes of kind k that acc owns across the entries. */
  function Bytes(s: seq<Entry>, acc: Accelerator, k: MemKind): nat
  {
    if s == [] then 0 else Bytes(DropLast(s), acc, k) + Share(Last(s), acc, k)
  }

  /** All bytes acc owns, whatever their kind. */
  function OwnedBytes(s: seq<Entry>, acc: Accelerator): nat
  {
    if s == [] then 0
    else OwnedBytes(DropLast(s), acc) + (if Last(s).info.acc == acc then Last(s).info.sizeBytes else 0)
  }

  /** The three buckets partition acc's bytes: each owned entry counts in exactly one. */
  lemma {:induction false} BytesPartition(s: seq<Entry>, acc: Accelerator)
    ensures Bytes(s, acc, DeviceMem) + Bytes(s, acc, HostMem) + Bytes(s, acc, UserMem) == OwnedBytes(s, acc)
    decreases |s|
  {
    if s != [] {
      BytesPartition(DropLast(s), acc);
    }
  }

  /** The totals of a concatenation are the sums of the parts' totals. */
  lemma {:induction false} BytesAppend(a: seq<Entry>, b: seq<Entry>, acc: Accelerator, k: MemKind)
    ensures Bytes(a + b, acc, k) == Bytes(a, acc, k) + Bytes(b, acc, k)
    decreases |b|
  {
    if b == [] {
      assert a + b == a;
    } else {
      assert DropLast(a + b) == a + DropLast(b) && Last(a + b) == Last(b);
      BytesAppend(a, DropLast(b), acc, k);
    }
  }

  /** A lone entry contributes exactly its share. */
  lemma {:induction false} BytesSingle(e: Entry, acc: Accelerator, k: MemKind)
    ensures Bytes([e], acc, k) == Share(e, acc, k)
  {
    assert DropLast([e]) == [];
  }

  /** After reset(acc), acc owns no bytes of any kind, and every other accelerator's totals
      are what they were. */
  lemma {:induction false} BytesAfterReset(s: seq<Entry>, acc: Accelerator, b: Accelerator, k: MemKind)
    ensures Bytes(Others(s, acc), acc, k) == 0
    ensures b != acc ==> Bytes(Others(s, acc), b, k) == Bytes(s, b, k)
    decreases |s|
  {
    if s != [] {
      BytesAfterReset(DropLast(s), acc, b, k);
      var tail := if Last(s).info.acc == acc then [] else [Last(s)];
      BytesAppend(Others(DropLast(s), acc), tail, acc, k);
      BytesAppend(Others(DropLast(s), acc), tail, b, k);
      if tail != [] {
        BytesSingle(Last(s), acc, k);
        BytesSingle(Last(s), b, k);
      }
    }
  }

  /** A non-colliding insert adds the record's size to its owner's bucket of its kind and to
      no other total; a colliding insert changes no total. */
  lemma BytesAfterInsert(s: seq<Entry>, pointer: Address, info: AmPointerInfo, acc: Accelerator, k: MemKind)
    requires Ordered(s) && info.sizeBytes > 0
    ensures Collides(s, MakeRange(pointer, info.sizeBytes)) ==>
              Bytes(InsertEntry(s, pointer, info), acc, k) == Bytes(s, acc, k)
    ensures !Collides(s, MakeRange(pointer, info.sizeBytes)) ==>
              Bytes(InsertEntry(s, pointer, info), acc, k) ==
              Bytes(s, acc, k) + (if info.acc == acc && KindOf(info) == k then info.sizeBytes else 0)
  {
    var key := MakeRange(pointer, info.sizeBytes);
    if !Collides(s, key) {
      var e := Entry(key, info);
      var i := LowerBound(s, key);
      InsertEntryShape(s, pointer, info);
      BytesAppend(s[..i] + [e], s[i..], acc, k);
      BytesAppend(s[..i], [e], acc, k);
      BytesSingle(e, acc, k);
      BytesAppend(s[..i], s[i..], acc, k);
      assert s[..i] + s[i..] == s;
    }
  }

  /** Removing the entry at position i takes its size out of its owner's bucket of its kind
      and out of no other total. */
  lemma BytesAfterErase(s: seq<Entry>, i: nat, acc: Accelerator, k: MemKind)
    requires i < |s|
    ensures Bytes(s[..i] + s[i + 1..], acc, k) + Share(s[i], acc, k) == Bytes(s, acc, k)
  {
    BytesAppend(s[..i], s[i + 1..], acc, k);
    BytesAppend(s[..i] + [s[i]], s[i + 1..], acc, k);
    BytesAppend(s[..i], [s[i]], acc, k);
    BytesSingle(s[i], acc, k);
    assert s[..i] + [s[i]] + s[i + 1..] == s;
  }
}
