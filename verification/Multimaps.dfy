// The header as a multimap: the items of each tag in index order. Nothing here asks for sorted or
// distinct tags.
module Multimaps {
  import opened Bits
  import opened Headers
  import opened Layouts
  import opened Editing
  import opened HeaderMaps

  function ItemsWith(entries: seq<Entry>, tag: u32): seq<Item> {
    if entries == [] then []
    else (if entries[0].tag == tag then [ItemAt(entries[0])] else []) + ItemsWith(entries[1..], tag)
  }

  // How many entries have the tag
  function Count(entries: seq<Entry>, tag: u32): nat {
    |ItemsWith(entries, tag)|
  }

  function Tail(items: seq<Item>): seq<Item> {
    if items == [] then [] else items[1..]
  }

  lemma {:induction false} FirstItem(entries: seq<Entry>, tag: u32)
    ensures var i, items := IndexOf(entries, tag), ItemsWith(entries, tag);
            (i < 0 <==> items == []) && (i >= 0 ==> items[0] == ItemAt(entries[i]))
  {
    if entries != [] && entries[0].tag != tag {
      FirstItem(entries[1..], tag);
      assert ItemsWith(entries, tag) == ItemsWith(entries[1..], tag);
    }
  }

  lemma ItemIsFirst(h: Header, tag: u32)
    ensures var items := ItemsWith(h.entries, tag);
            ItemOf(h, tag) == if items == [] then None else Some(items[0])
  {
    FirstItem(h.entries, tag);
  }

  lemma {:induction false} ItemsOfSum(a: seq<Entry>, b: seq<Entry>, tag: u32)
    ensures ItemsWith(a + b, tag) == ItemsWith(a, tag) + ItemsWith(b, tag)
    decreases |a|
  {
    hide ItemAt;
    if a == [] {
      assert a + b == b;
    } else {
      assert (a + b)[0] == a[0] && (a + b)[1..] == a[1..] + b;
      ItemsOfSum(a[1..], b, tag);
    }
  }

  lemma ItemsOfOne(e: Entry, tag: u32)
    ensures ItemsWith([e], tag) == if e.tag == tag then [ItemAt(e)] else []
  {
    assert [e][1..] == [];
  }

  // ----- lists of entries that differ in offsets and trailers only

  predicate AllKept(after: seq<Entry>, before: seq<Entry>) {
    |after| == |before| && forall j :: 0 <= j < |after| ==> Kept(after[j], before[j])
  }

  lemma {:induction false} KeptItemsWith(after: seq<Entry>, before: seq<Entry>, tag: u32)
    requires AllKept(after, before)
    ensures ItemsWith(after, tag) == ItemsWith(before, tag)
    decreases |after|
  {
    if after != [] {
      KeptItem(after[0], before[0]);
      KeptTag(after[0], before[0]);
      assert AllKept(after[1..], before[1..]) by { KeptRest(after, before); }
      KeptItemsWith(after[1..], before[1..], tag);
    }
  }

  lemma KeptRest(after: seq<Entry>, before: seq<Entry>)
    requires AllKept(after, before) && after != []
    ensures AllKept(after[1..], before[1..])
  {
    hide Kept;
  }

  lemma KeptIndices(after: seq<Entry>, before: seq<Entry>, tag: u32)
    requires AllKept(after, before)
    ensures IndexOf(after, tag) == IndexOf(before, tag)
    ensures InsertionPoint(after, tag) == InsertionPoint(before, tag)
  {
    IndexOfIs(after, tag, IndexOf(before, tag));
    InsertionPointIs(after, tag, InsertionPoint(before, tag));
  }

  lemma SyncKeepsAll(h: Header)
    ensures AllKept(SyncLayout(h).entries, h.entries)
  {
    hide LayoutOffset, LayoutSize;
  }

  // ----- removing, inserting and replacing one entry

  // The entries without the first one of a tag
  function Without(entries: seq<Entry>, tag: u32): (rest: seq<Entry>)
    ensures |rest| == |entries| - if IndexOf(entries, tag) >= 0 then 1 else 0
  {
    var i := IndexOf(entries, tag);
    if i < 0 then entries else entries[..i] + entries[i + 1..]
  }

  lemma ItemsAround(entries: seq<Entry>, i: nat, tag: u32)
    requires i < |entries|
    ensures ItemsWith(entries, tag) ==
            ItemsWith(entries[..i], tag) + (if entries[i].tag == tag then [ItemAt(entries[i])] else [])
            + ItemsWith(entries[i + 1..], tag)
  {
    assert entries == entries[..i] + ([entries[i]] + entries[i + 1..]);
    ItemsOfSum(entries[..i], [entries[i]] + entries[i + 1..], tag);
    ItemsOfSum([entries[i]], entries[i + 1..], tag);
    ItemsOfOne(entries[i], tag);
  }

  lemma NoneInFront(entries: seq<Entry>, tag: u32, i: nat)
    requires i <= |entries| && forall j :: 0 <= j < i ==> entries[j].tag != tag
    ensures ItemsWith(entries[..i], tag) == []
  {
    IndexOfIs(entries[..i], tag, -1);
    FirstItem(entries[..i], tag);
  }

  lemma ItemsWithout(entries: seq<Entry>, tag: u32, t: u32)
    ensures ItemsWith(Without(entries, tag), t) ==
            if t == tag then Tail(ItemsWith(entries, t)) else ItemsWith(entries, t)
  {
    hide IndexOf, ItemsWith, ItemAt;
    var i := IndexOf(entries, tag);
    FirstItem(entries, tag);
    if i >= 0 {
      var front, back := ItemsWith(entries[..i], t), ItemsWith(entries[i + 1..], t);
      ItemsAround(entries, i, t);
      NoneInFront(entries, tag, i);
      ItemsOfSum(entries[..i], entries[i + 1..], t);
      assert ItemsWith(Without(entries, tag), t) == front + back;
      if t == tag {
        assert ItemsWith(entries, t) == [ItemAt(entries[i])] + back;
      }
    }
  }

  lemma ItemsOfInsertion(entries: seq<Entry>, k: nat, e: Entry, t: u32)
    requires k <= |entries|
    ensures t != e.tag ==> ItemsWith(InsertAt(entries, k, e), t) == ItemsWith(entries, t)
    ensures t == e.tag && IndexOf(entries, t) < 0 ==> ItemsWith(InsertAt(entries, k, e), t) == [ItemAt(e)]
    ensures Count(InsertAt(entries, k, e), t) == Count(entries, t) + if t == e.tag then 1 else 0
  {
    hide ItemsWith, IndexOf;
    var after := InsertAt(entries, k, e);
    assert after[..k] == entries[..k] && after[k] == e && after[k + 1..] == entries[k..];
    ItemsAround(after, k, t);
    assert entries == entries[..k] + entries[k..];
    ItemsOfSum(entries[..k], entries[k..], t);
    FirstItem(entries, t);
  }

  lemma ItemsOfReplacement(entries: seq<Entry>, i: nat, e: Entry, t: u32)
    requires i < |entries| && e.tag == entries[i].tag
    ensures t != e.tag ==> ItemsWith(entries[i := e], t) == ItemsWith(entries, t)
    ensures i == IndexOf(entries, t) ==>
              ItemsWith(entries[i := e], t) == [ItemAt(e)] + Tail(ItemsWith(entries, t))
    ensures Count(entries[i := e], t) == Count(entries, t)
  {
    hide ItemsWith, IndexOf;
    var after := entries[i := e];
    assert after[..i] == entries[..i] && after[i + 1..] == entries[i + 1..];
    ItemsAround(after, i, t);
    ItemsAround(entries, i, t);
    if i == IndexOf(entries, t) {
      NoneInFront(entries, t, i);
    }
  }

  // ----- the edits, as edits of the list of entries

  lemma NothingDeleted(h: Header, tag: u32)
    requires tag != TAG_HEADER_SIGNATURES && TrailerHasItsSize(h) && IndexOf(h.entries, tag) < 0
    ensures Delete(h, tag) == h
  {
  }

  lemma DeleteIsWithout(h: Header, tag: u32)
    requires tag != TAG_HEADER_SIGNATURES && TrailerHasItsSize(h)
    ensures AllKept(Delete(h, tag).entries, Without(h.entries, tag))
  {
    hide Delete, Kept, IndexOf, TrailerHasItsSize;
    KeptIsReflexive();
    if IndexOf(h.entries, tag) >= 0 {
      DeleteKeeps(h, tag);
    } else {
      NothingDeleted(h, tag);
    }
  }

  lemma InsertIsInsertion(h: Header, e: Entry, grow: Growth)
    requires e.tag != TAG_HEADER_SIGNATURES && TrailerHasItsSize(h)
    ensures AllKept(Insert(h, e, grow).entries, InsertAt(h.entries, InsertionPoint(h.entries, e.tag), e))
  {
    hide Insert, Kept;
    InsertKeeps(h, e, grow);
  }

  // The entries that an allocation leaves: the reservation is replaced or inserted.
  function Reserving(entries: seq<Entry>, reservation: Entry): seq<Entry> {
    var r := IndexOf(entries, TAG_RESERVED_SPACE);
    if r >= 0 then entries[r := reservation]
    else InsertAt(entries, InsertionPoint(entries, TAG_RESERVED_SPACE), reservation)
  }

  // Where the reservation is then
  function ReservedAt(entries: seq<Entry>): nat {
    var r := IndexOf(entries, TAG_RESERVED_SPACE);
    if r >= 0 then r else InsertionPoint(entries, TAG_RESERVED_SPACE)
  }

  lemma AllocationIsReserving(h: Header, n: u32, format: u32, grow: Growth)
    requires TrailerHasItsSize(h)
    ensures var after, r := Allocate(h, n, format, grow).h.entries, ReservedAt(h.entries);
            && r < |after| && after[r].tag == TAG_RESERVED_SPACE && IndexOf(after, TAG_RESERVED_SPACE) == r
            && AllKept(after, Reserving(h.entries, after[r]))
  {
    hide AllocateOnce, Insert, NewReservation, Kept, InsertionPoint, IndexOf, U32;
    var reserved, r := WithReservedSpace(h, n, format, grow), ReservedAt(h.entries);
    AllocationReserves(h, n, format, grow);
    OneAllocationKeeps(reserved, n, format);
    StillReserved(reserved, n, format);
    OneAllocationKeeps(AllocateOnce(reserved, n, format).h, n, format);
    KeptIsReflexive();
    if IndexOf(h.entries, TAG_RESERVED_SPACE) < 0 {
      var e := NewReservation(h, n, format);
      InsertIsInsertion(h, e, grow);
      InsertedIsFound(h, e, grow);
      assert forall j :: 0 <= j < |reserved.entries| ==> Kept(reserved.entries[j], InsertAt(h.entries, r, e)[j]);
    }
  }

  lemma KeptIsReflexive()
    ensures forall e: Entry :: Kept(e, e)
  {
  }

  lemma AllocationItemsWith(h: Header, n: u32, format: u32, grow: Growth, t: u32)
    requires TrailerHasItsSize(h) && t != TAG_RESERVED_SPACE
    ensures ItemsWith(Allocate(h, n, format, grow).h.entries, t) == ItemsWith(h.entries, t)
  {
    hide Allocate, ItemsWith, AllKept;
    AllocationIsReserving(h, n, format, grow);
    var after, r := Allocate(h, n, format, grow).h.entries, ReservedAt(h.entries);
    KeptItemsWith(after, Reserving(h.entries, after[r]), t);
    if IndexOf(h.entries, TAG_RESERVED_SPACE) >= 0 {
      ItemsOfReplacement(h.entries, r, after[r], t);
    } else {
      ItemsOfInsertion(h.entries, r, after[r], t);
    }
  }

  // ----- what a deletion does to the items

  // Deleting takes the first item of the tag away.
  lemma DeleteItemsWith(h: Header, tag: u32, t: u32)
    requires tag != TAG_HEADER_SIGNATURES && TrailerHasItsSize(h)
    ensures ItemsWith(Delete(h, tag).entries, t) ==
            if t == tag then Tail(ItemsWith(h.entries, t)) else ItemsWith(h.entries, t)
  {
    hide Delete, ItemsWith;
    DeleteIsWithout(h, tag);
    KeptItemsWith(Delete(h, tag).entries, Without(h.entries, tag), t);
    ItemsWithout(h.entries, tag, t);
  }

  // So it removes the tag exactly if that does not occur a second time.
  lemma DeleteIsMapRemoval(h: Header, tag: u32)
    requires !OwnedByEditor(tag) && CanDelete(h, tag)
    ensures IsMapRemoval(h, Delete(h, tag), tag) <==> Count(h.entries, tag) <= 1
  {
    hide Delete, ItemsWith, ItemOf;
    DeleteItemsWith(h, tag, tag);
    ItemIsFirst(Delete(h, tag), tag);
    forall t: u32 | t != TAG_RESERVED_SPACE && t != tag ensures ItemOf(Delete(h, tag), t) == ItemOf(h, t) {
      DeleteItemsWith(h, tag, t);
      ItemIsFirst(h, t);
      ItemIsFirst(Delete(h, tag), t);
    }
  }

  lemma DeleteItems(h: Header, tag: u32, t: u32)
    requires tag != TAG_HEADER_SIGNATURES && TrailerHasItsSize(h) && t != tag
    ensures ItemOf(Delete(h, tag), t) == ItemOf(h, t)
  {
    hide Delete, ItemsWith, ItemOf;
    DeleteItemsWith(h, tag, t);
    ItemIsFirst(h, t);
    ItemIsFirst(Delete(h, tag), t);
  }

  lemma {:induction false} AscendingOccursOnce(entries: seq<Entry>, tag: u32)
    requires Ascending(entries)
    ensures Count(entries, tag) <= 1
    decreases |entries|
  {
    if entries != [] {
      AscendingOccursOnce(entries[1..], tag);
      if entries[0].tag == tag {
        FirstItem(entries[1..], tag);
      }
    }
  }

  // ----- what setting a tag does to the items

  // The entry that a pointer to the one with a tag points at once the reservation was inserted
  // in front of it
  function StruckTag(entries: seq<Entry>, tag: u32): u32
    requires IndexOf(entries, tag) >= InsertionPoint(entries, TAG_RESERVED_SPACE)
  {
    var i := IndexOf(entries, tag);
    if i == InsertionPoint(entries, TAG_RESERVED_SPACE) then TAG_RESERVED_SPACE else entries[i - 1].tag
  }

  // The pointer to the entry is good for nothing but hits another one.
  predicate GoesAstray(h: Header, tag: u32, payload: bytes) {
    PointerGoesStale(h, tag, payload) && |h.entries| + 1 <= h.capacity
  }

  // No entry is lost, whatever a pointer hits. The items of a tag are as they were, except that the
  // first one of the tag that is set is the new one, or else one of the tag that is hit.
  lemma SetOrAddItemsWith(
      h: Header, tag: u32, format: u32, count: u32, payload: bytes, grow: Growth, t: u32)
    requires !OwnedByEditor(tag) && TrailerHasItsSize(h) && t != TAG_RESERVED_SPACE
    requires IndexOf(h.entries, tag) >= 0 ==> h.entries[IndexOf(h.entries, tag)].format == format
    ensures var before, after := ItemsWith(h.entries, t),
                                 ItemsWith(SetOrAdd(h, tag, format, count, payload, grow).entries, t);
            && |after| == |before| + (if t == tag && before == [] then 1 else 0)
            && (!PointerGoesStale(h, tag, payload) ==>
                  after == if t == tag then [Item(format, count, payload)] + Tail(before) else before)
            && (PointerGoesStale(h, tag, payload) && (t == tag || !GoesAstray(h, tag, payload)) ==> after == before)
            && (GoesAstray(h, tag, payload) && t != StruckTag(h.entries, tag) ==> after == before)
  {
    hide SetOrAdd, ItemsWith;
    FirstItem(h.entries, tag);
    if IndexOf(h.entries, tag) < 0 {
      AddItemsWith(h, tag, format, count, payload, grow, t);
    } else {
      FoundItemsWith(h, tag, format, count, payload, grow, t);
    }
  }

  lemma AddItemsWith(h: Header, tag: u32, format: u32, count: u32, payload: bytes, grow: Growth, t: u32)
    requires !OwnedByEditor(tag) && TrailerHasItsSize(h) && t != TAG_RESERVED_SPACE && IndexOf(h.entries, tag) < 0
    ensures ItemsWith(SetOrAdd(h, tag, format, count, payload, grow).entries, t) ==
            if t == tag then [Item(format, count, payload)] else ItemsWith(h.entries, t)
  {
    hide ItemsWith, Allocate, Insert, AllKept;
    AllocationKeepsTrailerSize(h, U32(|payload|), format, grow);
    AllocationItemsWith(h, U32(|payload|), format, grow, t);
    AllocationItems(h, U32(|payload|), format, grow, tag);
    var allocation := Allocate(h, U32(|payload|), format, grow);
    var reached, e := allocation.h, Entry(tag, format, allocation.address, count, payload);
    InsertIsInsertion(reached, e, grow);
    var k := InsertionPoint(reached.entries, tag);
    KeptItemsWith(Insert(reached, e, grow).entries, InsertAt(reached.entries, k, e), t);
    ItemsOfInsertion(reached.entries, k, e, t);
  }

  // A write through a pointer to the entry with index i
  lemma WrittenItemsWith(h: Header, i: nat, count: u32, payload: bytes, t: u32)
    requires i < |h.entries|
    ensures var e := h.entries[i]; var before, after := ItemsWith(h.entries, t),
                                 ItemsWith(SyncLayout(WithContents(h, i, count, payload)).entries, t);
            && |after| == |before|
            && (t != e.tag ==> after == before)
            && (i == IndexOf(h.entries, t) && t != TAG_HEADER_SIGNATURES ==>
                  after == [Item(e.format, count, payload)] + Tail(before))
  {
    hide ItemsWith, SyncLayout, AllKept;
    var written := WithContents(h, i, count, payload);
    SyncKeepsAll(written);
    KeptItemsWith(SyncLayout(written).entries, written.entries, t);
    ItemsOfReplacement(h.entries, i, written.entries[i], t);
  }

  lemma FoundItemsWith(h: Header, tag: u32, format: u32, count: u32, payload: bytes, grow: Growth, t: u32)
    requires !OwnedByEditor(tag) && TrailerHasItsSize(h) && t != TAG_RESERVED_SPACE
    requires IndexOf(h.entries, tag) >= 0 && h.entries[IndexOf(h.entries, tag)].format == format
    ensures var before, after := ItemsWith(h.entries, t),
                                 ItemsWith(SetOrAdd(h, tag, format, count, payload, grow).entries, t);
            && |after| == |before|
            && (!PointerGoesStale(h, tag, payload) ==>
                  after == if t == tag then [Item(format, count, payload)] + Tail(before) else before)
            && (PointerGoesStale(h, tag, payload) && (t == tag || !GoesAstray(h, tag, payload)) ==> after == before)
            && (GoesAstray(h, tag, payload) && t != StruckTag(h.entries, tag) ==> after == before)
  {
    hide ItemsWith, Allocate, SyncLayout, AllKept, InsertionPoint, NeedsAllocation;
    var i, reached := IndexOf(h.entries, tag), Allocated(h, tag, format, payload, grow);
    AllocationKeepsTrailerSize(h, U32(|payload|), format, grow);
    AllocationItems(h, U32(|payload|), format, grow, tag);
    AllocationItemsWith(h, U32(|payload|), format, grow, t);
    ReachedEntry(h, tag, format, payload, grow);
    if NeedsAllocation(h, tag, payload) && SliceMoves(h) {
      SyncKeepsAll(reached);
      KeptItemsWith(SyncLayout(reached).entries, reached.entries, t);
    } else {
      WrittenItemsWith(reached, i, count, payload, t);
    }
  }

  // What the index of the entry leads to after the allocation, if there is one
  lemma ReachedEntry(h: Header, tag: u32, format: u32, payload: bytes, grow: Growth)
    requires !OwnedByEditor(tag) && TrailerHasItsSize(h) && IndexOf(h.entries, tag) >= 0
    ensures var i, reached := IndexOf(h.entries, tag), Allocated(h, tag, format, payload, grow).entries;
            && i < |reached|
            && if PointerGoesStale(h, tag, payload) && i >= InsertionPoint(h.entries, TAG_RESERVED_SPACE)
               then
                 && reached[i].tag == StruckTag(h.entries, tag) != tag
                 && (reached[i].tag != TAG_RESERVED_SPACE ==> i > 0 && Kept(reached[i], h.entries[i - 1]))
               else reached[i].tag == tag && Kept(reached[i], h.entries[i])
  {
    hide Allocate, InsertionPoint, NeedsAllocation, Kept;
    var i, n := IndexOf(h.entries, tag), U32(|payload|);
    KeptIsReflexive();
    if NeedsAllocation(h, tag, payload) {
      AllocationIsReserving(h, n, format, grow);
      AllocationReserves(h, n, format, grow);
      var after, r := Allocate(h, n, format, grow).h.entries, ReservedAt(h.entries);
      assert Kept(after[i], Reserving(h.entries, after[r])[i]);
      KeptTag(after[i], Reserving(h.entries, after[r])[i]);
    }
  }

  // An entry that is hit keeps its format and gets the count and payload of another one.
  lemma StruckItem(h: Header, tag: u32, format: u32, count: u32, payload: bytes, grow: Growth, t: u32)
    requires !OwnedByEditor(tag) && !OwnedByEditor(t) && TrailerHasItsSize(h) && GoesAstray(h, tag, payload)
    ensures var before, after := ItemOf(h, t), ItemOf(SetOrAdd(h, tag, format, count, payload, grow), t);
            after == before || (before.Some? && after == Some(Item(before.value.format, count, payload)))
  {
    hide Allocate, SyncLayout, InsertionPoint, NeedsAllocation;
    var i, reached := IndexOf(h.entries, tag), Allocated(h, tag, format, payload, grow);
    AllocationKeepsTrailerSize(h, U32(|payload|), format, grow);
    AllocationItems(h, U32(|payload|), format, grow, t);
    ContentsItems(reached, i, count, payload, t);
    SyncItems(WithContents(reached, i, count, payload), t);
  }

  // Where the entry that is hit is found
  lemma StruckEntry(h: Header, tag: u32, format: u32, count: u32, payload: bytes, grow: Growth)
    requires !OwnedByEditor(tag) && TrailerHasItsSize(h) && GoesAstray(h, tag, payload)
    requires StruckTag(h.entries, tag) != TAG_RESERVED_SPACE
    ensures var i, after := IndexOf(h.entries, tag), SetOrAdd(h, tag, format, count, payload, grow).entries;
            && 0 < i < |after| && after[i].tag == h.entries[i - 1].tag && after[i].format == h.entries[i - 1].format
            && after[i].count == count && after[i].payload == payload
  {
    hide Allocate, InsertionPoint, NeedsAllocation, LayoutOffset, LayoutSize;
    ReachedEntry(h, tag, format, payload, grow);
  }
}
