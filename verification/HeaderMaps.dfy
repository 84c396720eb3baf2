// The header as a map from tags to contents: what an edit does to it, and when the edit of an
// existing entry goes wrong.
module HeaderMaps {
  import opened Bits
  import opened Headers
  import opened Layouts
  import opened Editing

  datatype Item = Item(format: u32, count: u32, payload: bytes)

  // The bytes of a region trailer follow from the other entries; only their number counts.
  function ItemAt(e: Entry): Item {
    Item(e.format, e.count, if e.tag == TAG_HEADER_SIGNATURES then Zeros(|e.payload|) else e.payload)
  }

  function ItemOf(h: Header, tag: u32): Option<Item> {
    var i := IndexOf(h.entries, tag);
    if i < 0 then None else Some(ItemAt(h.entries[i]))
  }

  // The trailer and the reserved space are the editor's own: no caller sets or deletes them.
  predicate OwnedByEditor(tag: u32) {
    tag == TAG_HEADER_SIGNATURES || tag == TAG_RESERVED_SPACE
  }

  ghost predicate IsMapUpdate(h: Header, h': Header, tag: u32, item: Item) {
    forall t: u32 :: t != TAG_RESERVED_SPACE ==> ItemOf(h', t) == if t == tag then Some(item) else ItemOf(h, t)
  }

  ghost predicate IsMapRemoval(h: Header, h': Header, tag: u32) {
    forall t: u32 :: t != TAG_RESERVED_SPACE ==> ItemOf(h', t) == if t == tag then None else ItemOf(h, t)
  }

  ghost predicate Ascending(entries: seq<Entry>) {
    forall i, j :: 0 <= i < j < |entries| ==> entries[i].tag < entries[j].tag
  }

  // ----- each step of the editor, as seen from one tag

  lemma KeptItems(h: Header, h': Header, t: u32)
    requires |h.entries| == |h'.entries|
    requires forall j :: 0 <= j < |h.entries| ==> Kept(h'.entries[j], h.entries[j])
    ensures IndexOf(h'.entries, t) == IndexOf(h.entries, t) && ItemOf(h', t) == ItemOf(h, t)
  {
    IndexOfIs(h'.entries, t, IndexOf(h.entries, t));
  }

  lemma SyncItems(h: Header, t: u32)
    ensures IndexOf(SyncLayout(h).entries, t) == IndexOf(h.entries, t) && ItemOf(SyncLayout(h), t) == ItemOf(h, t)
  {
    KeptItems(h, SyncLayout(h), t);
  }

  lemma InsertItems(h: Header, e: Entry, grow: Growth, t: u32)
    requires e.tag != TAG_HEADER_SIGNATURES && TrailerHasItsSize(h) && IndexOf(h.entries, e.tag) < 0
    ensures ItemOf(Insert(h, e, grow), t) == if t == e.tag then Some(ItemAt(e)) else ItemOf(h, t)
    ensures t != e.tag ==>
              var i, k := IndexOf(h.entries, t), InsertionPoint(h.entries, e.tag);
              IndexOf(Insert(h, e, grow).entries, t) == if i >= k then i + 1 else i
  {
    hide Insert, IndexOf, Kept, InsertionPoint;
    InsertKeeps(h, e, grow);
    var i, k, after := IndexOf(h.entries, t), InsertionPoint(h.entries, e.tag), Insert(h, e, grow).entries;
    KeptItem(after[k], e);
    if t == e.tag {
      InsertedIsFound(h, e, grow);
    } else {
      forall j | 0 <= j < |after| && j != k ensures after[j].tag == h.entries[if j < k then j else j - 1].tag {
        KeptTag(after[j], h.entries[if j < k then j else j - 1]);
      }
      KeptTag(after[k], e);
      IndexAfterInsertion(h.entries, after, k, t);
      if i >= 0 {
        KeptItem(after[if i >= k then i + 1 else i], h.entries[i]);
      }
    }
  }

  lemma IndexAfterInsertion(before: seq<Entry>, after: seq<Entry>, k: nat, t: u32)
    requires k <= |before| && |after| == |before| + 1 && after[k].tag != t
    requires forall j :: 0 <= j < |after| && j != k ==> after[j].tag == before[if j < k then j else j - 1].tag
    ensures var i := IndexOf(before, t);
            IndexOf(after, t) == if i >= k then i + 1 else i
  {
    hide IndexOf;
    var i := IndexOf(before, t);
    IndexOfIs(after, t, if i >= k then i + 1 else i);
  }

  lemma KeptTag(a: Entry, b: Entry)
    requires Kept(a, b)
    ensures a.tag == b.tag
  {
  }

  lemma KeptItem(a: Entry, b: Entry)
    requires Kept(a, b)
    ensures ItemAt(a) == ItemAt(b)
  {
  }

  lemma OneAllocationItems(h: Header, requestedSize: u32, format: u32, t: u32)
    requires IndexOf(h.entries, TAG_RESERVED_SPACE) >= 0 && t != TAG_RESERVED_SPACE
    ensures var h' := AllocateOnce(h, requestedSize, format).h;
            IndexOf(h'.entries, t) == IndexOf(h.entries, t) && ItemOf(h', t) == ItemOf(h, t)
  {
    hide AllocateOnce;
    OneAllocationKeeps(h, requestedSize, format);
    IndexOfIs(AllocateOnce(h, requestedSize, format).h.entries, t, IndexOf(h.entries, t));
  }

  // Making room moves an entry by one place, if it was behind the new reservation.
  lemma AllocationItems(h: Header, requestedSize: u32, format: u32, grow: Growth, t: u32)
    requires TrailerHasItsSize(h) && t != TAG_RESERVED_SPACE
    ensures var h', i := Allocate(h, requestedSize, format, grow).h, IndexOf(h.entries, t);
            && ItemOf(h', t) == ItemOf(h, t)
            && IndexOf(h'.entries, t) ==
                 if IndexOf(h.entries, TAG_RESERVED_SPACE) < 0 && i >= InsertionPoint(h.entries, TAG_RESERVED_SPACE)
                 then i + 1 else i
  {
    hide AllocateOnce, Insert, NewReservation;
    var reserved := WithReservedSpace(h, requestedSize, format, grow);
    if IndexOf(h.entries, TAG_RESERVED_SPACE) < 0 {
      InsertItems(h, NewReservation(h, requestedSize, format), grow, t);
    }
    StillReserved(reserved, requestedSize, format);
    OneAllocationItems(reserved, requestedSize, format, t);
    OneAllocationItems(AllocateOnce(reserved, requestedSize, format).h, requestedSize, format, t);
  }

  lemma AllocationReserves(h: Header, requestedSize: u32, format: u32, grow: Growth)
    requires TrailerHasItsSize(h)
    ensures var r := IndexOf(h.entries, TAG_RESERVED_SPACE);
            IndexOf(Allocate(h, requestedSize, format, grow).h.entries, TAG_RESERVED_SPACE) ==
            if r >= 0 then r else InsertionPoint(h.entries, TAG_RESERVED_SPACE)
  {
    hide AllocateOnce, Insert, NewReservation;
    var reserved := WithReservedSpace(h, requestedSize, format, grow);
    if IndexOf(h.entries, TAG_RESERVED_SPACE) < 0 {
      InsertedIsFound(h, NewReservation(h, requestedSize, format), grow);
    }
    StillReserved(reserved, requestedSize, format);
    StillReserved(AllocateOnce(reserved, requestedSize, format).h, requestedSize, format);
  }

  lemma ContentsItems(h: Header, i: nat, count: u32, payload: bytes, t: u32)
    requires i < |h.entries| && (i == IndexOf(h.entries, t) ==> t != TAG_HEADER_SIGNATURES)
    ensures var h', k := WithContents(h, i, count, payload), IndexOf(h.entries, t);
            && IndexOf(h'.entries, t) == k
            && ItemOf(h', t) == if i == k then Some(Item(h.entries[i].format, count, payload)) else ItemOf(h, t)
  {
    IndexOfIs(WithContents(h, i, count, payload).entries, t, IndexOf(h.entries, t));
  }

  // ----- SetOrAddIndexEntry

  // Without reserved space, growing an entry inserts one. The pointer to the entry is lost when
  // the slice has to move, and points at another entry when the insertion shifts this one.
  predicate PointerGoesStale(h: Header, tag: u32, payload: bytes) {
    && NeedsAllocation(h, tag, payload)
    && IndexOf(h.entries, TAG_RESERVED_SPACE) < 0
    && (|h.entries| + 1 > h.capacity ||
        InsertionPoint(h.entries, TAG_RESERVED_SPACE) <= IndexOf(h.entries, tag))
  }

  lemma AddItems(h: Header, tag: u32, format: u32, count: u32, payload: bytes, grow: Growth, t: u32)
    requires !OwnedByEditor(tag) && TrailerHasItsSize(h) && IndexOf(h.entries, tag) < 0 && t != TAG_RESERVED_SPACE
    ensures ItemOf(SetOrAdd(h, tag, format, count, payload, grow), t) ==
            if t == tag then Some(Item(format, count, payload)) else ItemOf(h, t)
  {
    hide Allocate, Insert;
    AllocationKeepsTrailerSize(h, U32(|payload|), format, grow);
    var allocation := Allocate(h, U32(|payload|), format, grow);
    AllocationItems(h, U32(|payload|), format, grow, tag);
    AllocationItems(h, U32(|payload|), format, grow, t);
    InsertItems(allocation.h, Entry(tag, format, allocation.address, count, payload), grow, t);
  }

  lemma SetItems(h: Header, tag: u32, format: u32, count: u32, payload: bytes, grow: Growth, t: u32)
    requires !OwnedByEditor(tag) && TrailerHasItsSize(h) && t != TAG_RESERVED_SPACE
    requires IndexOf(h.entries, tag) >= 0 && h.entries[IndexOf(h.entries, tag)].format == format
    requires !PointerGoesStale(h, tag, payload)
    ensures ItemOf(SetOrAdd(h, tag, format, count, payload, grow), t) ==
            if t == tag then Some(Item(format, count, payload)) else ItemOf(h, t)
  {
    hide Allocate, SyncLayout, InsertionPoint;
    var i, reached := IndexOf(h.entries, tag), Allocated(h, tag, format, payload, grow);
    AllocationKeepsTrailerSize(h, U32(|payload|), format, grow);
    AllocationItems(h, U32(|payload|), format, grow, tag);
    AllocationItems(h, U32(|payload|), format, grow, t);
    ContentsItems(reached, i, count, payload, t);
    SyncItems(WithContents(reached, i, count, payload), t);
  }

  lemma StaleItems(h: Header, tag: u32, format: u32, count: u32, payload: bytes, grow: Growth)
    requires !OwnedByEditor(tag) && TrailerHasItsSize(h) && PointerGoesStale(h, tag, payload)
    ensures ItemOf(SetOrAdd(h, tag, format, count, payload, grow), tag) == ItemOf(h, tag)
  {
    hide Allocate, SyncLayout, InsertionPoint;
    var i, reached := IndexOf(h.entries, tag), Allocated(h, tag, format, payload, grow);
    AllocationKeepsTrailerSize(h, U32(|payload|), format, grow);
    AllocationItems(h, U32(|payload|), format, grow, tag);
    ContentsItems(reached, i, count, payload, tag);
    SyncItems(WithContents(reached, i, count, payload), tag);
    SyncItems(reached, tag);
  }

  // Set or add is a map update exactly when no stale pointer is written through; when one is,
  // the entry keeps its old contents.
  lemma SetOrAddIsMapUpdate(h: Header, tag: u32, format: u32, count: u32, payload: bytes, grow: Growth)
    requires !OwnedByEditor(tag) && CanSet(h, tag, format, payload)
    ensures IsMapUpdate(h, SetOrAdd(h, tag, format, count, payload, grow), tag, Item(format, count, payload))
            <==> !PointerGoesStale(h, tag, payload)
    ensures PointerGoesStale(h, tag, payload) ==>
              ItemOf(SetOrAdd(h, tag, format, count, payload, grow), tag) == ItemOf(h, tag)
  {
    hide SetOrAdd, HasData, Roomy;
    if PointerGoesStale(h, tag, payload) {
      StaleItems(h, tag, format, count, payload, grow);
      assert ItemOf(h, tag) != Some(Item(format, count, payload));
    } else {
      forall t: u32 | t != TAG_RESERVED_SPACE
        ensures ItemOf(SetOrAdd(h, tag, format, count, payload, grow), t) ==
                if t == tag then Some(Item(format, count, payload)) else ItemOf(h, t)
      {
        if IndexOf(h.entries, tag) < 0 {
          AddItems(h, tag, format, count, payload, grow, t);
        } else {
          SetItems(h, tag, format, count, payload, grow, t);
        }
      }
    }
  }
}
