/** The tracker's std::map<AmMemoryRange, AmPointerInfo, AmMemoryRangeCompare> as a sequence
    of entries in map order, with the map operations the tracker uses. */
module RangeMap {
  import opened AmTypes
  import opened MemoryRange

  /** One (key, value) pair of the map. */
  datatype Entry = Entry(key: AmMemoryRange, info: AmPointerInfo)

  /** The map's order: every key is a non-empty range and each key orders before every later
      key under AmMemoryRangeCompare. */
  ghost predicate Ordered(s: seq<Entry>)
  {
    && (forall i :: 0 <= i < |s| ==> NonEmpty(s[i].key))
    && (forall i, j :: 0 <= i < j < |s| ==> Less(s[i].key, s[j].key))
  }

  /** The entry's key is the range its own record describes: [base, base + sizeBytes - 1]. */
  predicate SizedEntry(e: Entry)
  {
    e.key == MakeRange(e.key.basePointer, e.info.sizeBytes)
  }

  /** Every key was built from its record's size, as insert(pointer, p) builds it. */
  ghost predicate Sized(s: seq<Entry>)
  {
    forall e :: e in s ==> SizedEntry(e)
  }

  /** Some entry's range contains address p. */
  ghost predicate Tracked(s: seq<Entry>, p: Address)
  {
    exists i :: 0 <= i < |s| && Contains(s[i].key, p)
  }

  /** Some entry's key is the same map key as `key`. */
  ghost predicate Collides(s: seq<Entry>, key: AmMemoryRange)
  {
    exists i :: 0 <= i < |s| && SameKey(s[i].key, key)
  }

  /** Stored ranges are pairwise disjoint: no address lies in two entries. */
  lemma OrderedDisjoint(s: seq<Entry>, i: nat, j: nat, p: Address)
    requires Ordered(s)
    requires i < |s| && j < |s| && i != j
    ensures !(Contains(s[i].key, p) && Contains(s[j].key, p))
  {
    if i < j {
      assert Less(s[i].key, s[j].key);
    } else {
      assert Less(s[j].key, s[i].key);
    }
  }

  /** std::map::lower_bound: the position of the first entry that does not order before key. */
  function LowerBound(s: seq<Entry>, key: AmMemoryRange): (i: nat)
    ensures i <= |s|
    ensures forall j :: 0 <= j < i ==> Less(s[j].key, key)
    ensures i < |s| ==> !Less(s[i].key, key)
    decreases |s|
  {
    if s == [] || !Less(s[0].key, key) then 0 else 1 + LowerBound(s[1..], key)
  }

  /** std::map::find with the one-byte probe around p: the position of the entry whose range
      contains p, if there is one. */
  function Locate(s: seq<Entry>, p: Address): (r: Option<nat>)
    requires Ordered(s)
    ensures r.Some? ==> r.value < |s| && Contains(s[r.value].key, p)
    ensures r.Some? ==> forall j :: 0 <= j < |s| && Contains(s[j].key, p) ==> j == r.value
    ensures r.None? <==> !Tracked(s, p)
  {
    var i := LowerBound(s, Probe(p));
    if i < |s| && !Less(Probe(p), s[i].key) then
      assert forall j :: 0 <= j < |s| && Contains(s[j].key, p) ==> j == i by {
        forall j | 0 <= j < |s| && j != i ensures !Contains(s[j].key, p) {
          OrderedDisjoint(s, i, j, p);
        }
      }
      Some(i)
    else
      assert !Tracked(s, p) by {
        forall j | 0 <= j < |s| ensures !Contains(s[j].key, p) {
          if i < j {
            assert Less(s[i].key, s[j].key);
          }
        }
      }
      None
  }

  /** Which entries a removal or lookup at p matches: the entry at `Locate`, or none. */
  lemma LocateFindsContaining(s: seq<Entry>, i: nat, p: Address)
    requires Ordered(s) && i < |s| && Contains(s[i].key, p)
    ensures Locate(s, p) == Some(i)
  {
  }

  /** Inserting at position i keeps the map order when the new key fits between its
      neighbours. */
  lemma OrderedInsertAt(s: seq<Entry>, i: nat, e: Entry)
    requires Ordered(s) && i <= |s| && NonEmpty(e.key)
    requires forall j :: 0 <= j < i ==> Less(s[j].key, e.key)
    requires forall j :: i <= j < |s| ==> Less(e.key, s[j].key)
    ensures Ordered(s[..i] + [e] + s[i..])
  {
    var r := s[..i] + [e] + s[i..];
    assert forall k :: 0 <= k < i ==> r[k] == s[k];
    assert r[i] == e;
    assert forall k :: i < k < |r| ==> r[k] == s[k - 1];
    forall a, b | 0 <= a < b < |r| ensures Less(r[a].key, r[b].key) {
      if b < i {
        assert Less(s[a].key, s[b].key);
      } else if b == i {
        assert Less(s[a].key, e.key);
      } else if a == i {
        assert Less(e.key, s[b - 1].key);
      } else if a < i {
        assert Less(s[a].key, s[b - 1].key);
      } else {
        assert Less(s[a - 1].key, s[b - 1].key);
      }
    }
  }

  /** Removing one entry keeps the map order. */
  lemma OrderedEraseAt(s: seq<Entry>, i: nat)
    requires Ordered(s) && i < |s|
    ensures Ordered(s[..i] + s[i + 1..])
  {
    var r := s[..i] + s[i + 1..];
    assert forall k :: 0 <= k < i ==> r[k] == s[k];
    assert forall k :: i <= k < |r| ==> r[k] == s[k + 1];
    forall a, b | 0 <= a < b < |r| ensures Less(r[a].key, r[b].key) {
      if b < i {
        assert Less(s[a].key, s[b].key);
      } else if a < i {
        assert Less(s[a].key, s[b + 1].key);
      } else {
        assert Less(s[a + 1].key, s[b + 1].key);
      }
    }
  }

  /** Inserting at any position adds exactly that one entry. */
  lemma MultisetInsertAt(s: seq<Entry>, i: nat, e: Entry)
    requires i <= |s|
    ensures multiset(s[..i] + [e] + s[i..]) == multiset(s) + multiset{e}
  {
    assert s == s[..i] + s[i..];
  }

  /** LowerBound is where a key that does not collide belongs: every earlier entry orders
      before it and every later one after it, so placing it there keeps the map order. */
  lemma InsertAtLowerBound(s: seq<Entry>, e: Entry, i: nat)
    requires Ordered(s) && NonEmpty(e.key)
    requires i == LowerBound(s, e.key)
    requires i == |s| || Less(e.key, s[i].key)
    ensures !Collides(s, e.key)
    ensures Ordered(s[..i] + [e] + s[i..])
  {
    forall j | i <= j < |s| ensures Less(e.key, s[j].key) {
      if i < j {
        assert Less(s[i].key, s[j].key);
      }
    }
    forall j | 0 <= j < |s| ensures !SameKey(s[j].key, e.key) {
      if j < i {
        assert Less(s[j].key, e.key);
      } else {
        assert Less(e.key, s[j].key);
      }
    }
    OrderedInsertAt(s, i, e);
  }

  /** std::map::insert of the pair (AmMemoryRange(pointer, info.sizeBytes), info): when an
      entry with the same key (an overlapping range) is present nothing changes; otherwise
      exactly that one entry is added, and the map stays ordered either way. */
  function InsertEntry(s: seq<Entry>, pointer: Address, info: AmPointerInfo): (r: seq<Entry>)
    requires Ordered(s) && info.sizeBytes > 0
    ensures Ordered(r)
    ensures Sized(s) ==> Sized(r)
    ensures Collides(s, MakeRange(pointer, info.sizeBytes)) ==> r == s
    ensures !Collides(s, MakeRange(pointer, info.sizeBytes)) ==>
              multiset(r) == multiset(s) + multiset{Entry(MakeRange(pointer, info.sizeBytes), info)}
  {
    var key := MakeRange(pointer, info.sizeBytes);
    var i := LowerBound(s, key);
    if i < |s| && !Less(key, s[i].key) then
      assert SameKey(s[i].key, key);
      s
    else
      InsertAtLowerBound(s, Entry(key, info), i);
      MultisetInsertAt(s, i, Entry(key, info));
      s[..i] + [Entry(key, info)] + s[i..]
  }

  /** The position at which InsertEntry places a non-colliding entry. */
  lemma InsertEntryShape(s: seq<Entry>, pointer: Address, info: AmPointerInfo)
    requires Ordered(s) && info.sizeBytes > 0
    requires !Collides(s, MakeRange(pointer, info.sizeBytes))
    ensures var i := LowerBound(s, MakeRange(pointer, info.sizeBytes));
            InsertEntry(s, pointer, info) == s[..i] + [Entry(MakeRange(pointer, info.sizeBytes), info)] + s[i..]
  {
    var key := MakeRange(pointer, info.sizeBytes);
    var i := LowerBound(s, key);
    assert i < |s| ==> !SameKey(s[i].key, key);
  }

  /** After a non-colliding insert, every address of the new range resolves to the new record,
      and the byte just past it does not. */
  lemma {:induction false} InsertThenLocate(s: seq<Entry>, pointer: Address, info: AmPointerInfo, q: Address)
    requires Ordered(s) && info.sizeBytes > 0
    requires !Collides(s, MakeRange(pointer, info.sizeBytes))
    ensures var r := InsertEntry(s, pointer, info);
            pointer <= q < pointer + info.sizeBytes ==>
              Locate(r, q).Some? && r[Locate(r, q).value] == Entry(MakeRange(pointer, info.sizeBytes), info)
    ensures var r := InsertEntry(s, pointer, info);
            q == pointer + info.sizeBytes && Locate(r, q).Some? ==>
              r[Locate(r, q).value].key != MakeRange(pointer, info.sizeBytes)
  {
    var key := MakeRange(pointer, info.sizeBytes);
    var i := LowerBound(s, key);
    var r := InsertEntry(s, pointer, info);
    InsertEntryShape(s, pointer, info);
    assert r[i] == Entry(key, info);
    if pointer <= q < pointer + info.sizeBytes {
      assert Contains(r[i].key, q);
      LocateFindsContaining(r, i, q);
    }
  }

  /** When p is tracked, erasing the entry that contains it leaves p untracked and keeps every
      other entry. */
  lemma EraseLocated(s: seq<Entry>, p: Address)
    requires Ordered(s) && Locate(s, p).Some?
    ensures var i := Locate(s, p).value;
            Ordered(s[..i] + s[i + 1..]) && !Tracked(s[..i] + s[i + 1..], p) &&
            multiset(s[..i] + s[i + 1..]) + multiset{s[i]} == multiset(s)
  {
    var i := Locate(s, p).value;
    var r := s[..i] + s[i + 1..];
    OrderedEraseAt(s, i);
    forall k | 0 <= k < |r| ensures !Contains(r[k].key, p) {
      if k < i {
        assert r[k] == s[k];
      } else {
        assert r[k] == s[k + 1];
      }
    }
    assert s == s[..i] + [s[i]] + s[i + 1..];
  }

  /** Insert then remove at the same pointer is a round trip: a non-colliding insert followed
      by erasing the entry that contains the pointer gives back the original map. */
  lemma InsertThenErase(s: seq<Entry>, pointer: Address, info: AmPointerInfo)
    requires Ordered(s) && info.sizeBytes > 0
    requires !Collides(s, MakeRange(pointer, info.sizeBytes))
    ensures var r := InsertEntry(s, pointer, info);
            && Locate(r, pointer).Some?
            && r[..Locate(r, pointer).value] + r[Locate(r, pointer).value + 1..] == s
  {
    var key := MakeRange(pointer, info.sizeBytes);
    var i := LowerBound(s, key);
    var r := InsertEntry(s, pointer, info);
    InsertEntryShape(s, pointer, info);
    assert r[i] == Entry(key, info);
    assert Contains(r[i].key, pointer);
    LocateFindsContaining(r, i, pointer);
    assert r[..i] == s[..i];
    assert r[i + 1..] == s[i..];
    assert s[..i] + s[i..] == s;
  }

  /** Erasing any entry keeps every remaining key matched to its record's size. */
  lemma SizedEraseAt(s: seq<Entry>, i: nat)
    requires Sized(s) && i < |s|
    ensures Sized(s[..i] + s[i + 1..])
  {
    assert s == s[..i] + [s[i]] + s[i + 1..];
  }

  /** In a valid map the records' own byte ranges [base, base + sizeBytes) never share an
      address. */
  lemma RecordsDisjoint(s: seq<Entry>, i: nat, j: nat, p: Address)
    requires Ordered(s) && Sized(s)
    requires i < |s| && j < |s| && i != j
    ensures !(s[i].key.basePointer <= p < s[i].key.basePointer + s[i].info.sizeBytes &&
              s[j].key.basePointer <= p < s[j].key.basePointer + s[j].info.sizeBytes)
  {
    assert SizedEntry(s[i]) && SizedEntry(s[j]);
    MakeRangeContains(s[i].key.basePointer, s[i].info.sizeBytes, p);
    MakeRangeContains(s[j].key.basePointer, s[j].info.sizeBytes, p);
    OrderedDisjoint(s, i, j, p);
  }

  /** In a valid map, p finds an entry exactly when it lies in some record's byte range
      [base, base + sizeBytes), and it finds that record. */
  lemma LocateByRecord(s: seq<Entry>, p: Address)
    requires Ordered(s) && Sized(s)
    ensures Locate(s, p).Some? ==>
              var e := s[Locate(s, p).value];
              e.info.sizeBytes > 0 && e.key.basePointer <= p < e.key.basePointer + e.info.sizeBytes
    ensures Locate(s, p).None? <==>
              forall i :: 0 <= i < |s| ==>
                !(s[i].key.basePointer <= p < s[i].key.basePointer + s[i].info.sizeBytes)
  {
    forall i | 0 <= i < |s|
      ensures Contains(s[i].key, p) <==> s[i].key.basePointer <= p < s[i].key.basePointer + s[i].info.sizeBytes
    {
      assert SizedEntry(s[i]);
      MakeRangeContains(s[i].key.basePointer, s[i].info.sizeBytes, p);
    }
  }
}
