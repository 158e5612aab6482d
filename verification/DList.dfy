/** The intrusive circular doubly linked list of doublylinkedlist.c. */
module DList {

  class Entry {
    var Flink: Entry
    var Blink: Entry

    /** DList_InitializeListHead, on new storage. */
    constructor InitializeListHead()
      ensures Flink == this && Blink == this && IsRing([this])
    {
      Flink, Blink := this, this;
    }
  }

  /**
   The entries of one ring in order from its first: forward links lead from each to the next and
   from the last to the first, and backward links are their inverses.
   */
  ghost predicate IsRing(ring: seq<Entry>)
    reads ring
  {
    && |ring| > 0
    && (forall i, j :: 0 <= i < j < |ring| ==> ring[i] != ring[j])
    && (forall i :: 0 <= i < |ring| - 1 ==> ring[i].Flink == ring[i + 1])
    && (forall i :: 0 <= i < |ring| - 1 ==> ring[i + 1].Blink == ring[i])
    && ring[|ring| - 1].Flink == ring[0]
    && ring[0].Blink == ring[|ring| - 1]
  }

  /** DList_InitializeListHead. */
  method InitializeListHead(listHead: Entry)
    modifies listHead
    ensures IsRing([listHead])
  {
    listHead.Blink := listHead;
    listHead.Flink := listHead.Blink;
  }

  /** DList_IsListEmpty: no entry but the head. */
  method IsListEmpty(listHead: Entry, ghost items: seq<Entry>) returns (empty: bool)
    requires IsRing([listHead] + items)
    ensures empty <==> items == []
  {
    empty := listHead.Flink == listHead;
    assert items != [] ==> ([listHead] + items)[1] == items[0];
  }

  /** DList_InsertTailList. */
  method InsertTailList(listHead: Entry, entry: Entry, ghost items: seq<Entry>)
    requires IsRing([listHead] + items) && entry !in [listHead] + items
    modifies listHead, items, entry
    ensures IsRing([listHead] + items + [entry])
  {
    ghost var ring := [listHead] + items;
    var blink := listHead.Blink;
    entry.Flink := listHead;
    entry.Blink := blink;
    blink.Flink := entry;
    listHead.Blink := entry;
    assert forall k :: 0 <= k < |ring| ==> (ring + [entry])[k] == ring[k];
  }

  /** DList_InsertHeadList. */
  method InsertHeadList(listHead: Entry, entry: Entry, ghost items: seq<Entry>)
    requires IsRing([listHead] + items) && entry !in [listHead] + items
    modifies listHead, items, entry
    ensures IsRing([listHead, entry] + items)
  {
    ghost var ring := [listHead] + items;
    assert listHead.Flink == if items == [] then listHead else ring[1];
    entry.Blink := listHead;
    entry.Flink := listHead.Flink;
    listHead.Flink.Blink := entry;
    listHead.Flink := entry;
    ghost var after := [listHead, entry] + items;
    assert forall k :: 2 <= k < |after| ==> after[k] == ring[k - 1];
  }

  /** DList_RemoveHeadList: the oldest entry, or the head itself when there is none. */
  method RemoveHeadList(listHead: Entry, ghost items: seq<Entry>) returns (entry: Entry)
    requires IsRing([listHead] + items)
    modifies listHead, items
    ensures entry == if items == [] then listHead else items[0]
    ensures IsRing([listHead] + if items == [] then [] else items[1..])
  {
    ghost var ring := [listHead] + items;
    assert items != [] ==> ring[1] == items[0];
    entry := listHead.Flink;
    var flink := entry.Flink;
    assert |items| > 1 ==> flink == ring[2];
    listHead.Flink := flink;
    flink.Blink := listHead;
    ghost var after := [listHead] + if items == [] then [] else items[1..];
    assert forall k :: 1 <= k < |after| ==> after[k] == ring[k + 1];
  }

  /**
   DList_RemoveEntryList, on the entry at index i of any ring. It returns true exactly when at most
   one entry is left. The removed entry keeps its own links.
   */
  method RemoveEntryList(entry: Entry, ghost ring: seq<Entry>, ghost i: nat) returns (lonely: bool)
    requires IsRing(ring) && i < |ring| && ring[i] == entry
    modifies ring
    ensures lonely <==> |ring| - 1 <= 1
    ensures |ring| > 1 ==> IsRing(ring[..i] + ring[i + 1..])
    ensures |ring| > 1 ==> entry.Flink == old(entry.Flink) && entry.Blink == old(entry.Blink)
  {
    var flink := entry.Flink;
    var blink := entry.Blink;
    assert flink == if i == |ring| - 1 then ring[0] else ring[i + 1];
    assert blink == if i == 0 then ring[|ring| - 1] else ring[i - 1];
    blink.Flink := flink;
    flink.Blink := blink;
    lonely := flink == blink;
    ghost var after := ring[..i] + ring[i + 1..];
    assert forall k :: 0 <= k < |after| ==> after[k] == ring[if k < i then k else k + 1];
  }

  /**
   DList_AppendTailList: the second ring, taken from the given entry on, is spliced in before the
   head. No entry is skipped, so the given entry becomes an item itself.
   */
  method AppendTailList(listHead: Entry, listToAppend: Entry, ghost items: seq<Entry>, ghost more: seq<Entry>)
    requires IsRing([listHead] + items) && IsRing([listToAppend] + more)
    requires forall k :: 0 <= k < |[listToAppend] + more| ==> ([listToAppend] + more)[k] !in [listHead] + items
    modifies listHead, items, listToAppend, more
    ensures IsRing([listHead] + items + [listToAppend] + more)
  {
    ghost var first, second := [listHead] + items, [listToAppend] + more;
    var listEnd := listHead.Blink;
    listHead.Blink.Flink := listToAppend;
    listHead.Blink := listToAppend.Blink;
    listToAppend.Blink.Flink := listHead;
    listToAppend.Blink := listEnd;
    ghost var after := [listHead] + items + [listToAppend] + more;
    assert forall k :: 0 <= k < |after| ==> after[k] == if k < |first| then first[k] else second[k - |first|];
  }

  /** The links determine the list: two rings from the same head are the same. */
  lemma RingIsDetermined(p: seq<Entry>, q: seq<Entry>)
    requires IsRing(p) && IsRing(q) && p[0] == q[0]
    ensures p == q
  {
    var n := if |p| <= |q| then |p| else |q|;
    SameUpTo(p, q, n);
  }

  lemma {:induction false} SameUpTo(p: seq<Entry>, q: seq<Entry>, n: nat)
    requires IsRing(p) && IsRing(q) && p[0] == q[0] && n <= |p| && n <= |q|
    ensures forall k :: 0 <= k < n ==> p[k] == q[k]
  {
    if n > 1 {
      SameUpTo(p, q, n - 1);
      assert p[n - 2].Flink == p[n - 1] && q[n - 2].Flink == q[n - 1];
    }
  }

  /** Inserting an entry at the tail and removing it again leaves every link of the list as it was. */
  method InsertTailThenRemove(listHead: Entry, entry: Entry, ghost items: seq<Entry>) returns (lonely: bool)
    requires IsRing([listHead] + items) && entry !in [listHead] + items
    modifies listHead, items, entry
    ensures forall e :: e in [listHead] + items ==> e.Flink == old(e.Flink) && e.Blink == old(e.Blink)
    ensures lonely <==> items == []
  {
    ghost var ring := [listHead] + items;
    InsertTailList(listHead, entry, items);
    lonely := RemoveEntryList(entry, ring + [entry], |ring|);
    assert (ring + [entry])[..|ring|] + (ring + [entry])[|ring| + 1..] == ring;
    forall k | 0 <= k < |ring|
      ensures ring[k].Flink == old(ring[k].Flink) && ring[k].Blink == old(ring[k].Blink)
    {
      assert ring[k].Flink == if k < |ring| - 1 then ring[k + 1] else ring[0];
      assert ring[k].Blink == if k > 0 then ring[k - 1] else ring[|ring| - 1];
      assert old(ring[k].Flink) == if k < |ring| - 1 then ring[k + 1] else ring[0];
      assert old(ring[k].Blink) == if k > 0 then ring[k - 1] else ring[|ring| - 1];
    }
  }
}
