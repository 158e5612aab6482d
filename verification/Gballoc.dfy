/**
 The accounting allocator of gballoc.c: a list of records, one per live block, beside running
 totals. What the underlying allocator returns is a parameter of every call.
 */
module Gballoc {
  import opened Options

  /** A non-NULL address. */
  type Pointer = nat

  datatype Block = Block(ptr: Pointer, size: nat)

  /** The records, newest first, and the counters. */
  datatype Ledger = Ledger(blocks: seq<Block>, totalSize: int, maxSize: int, allocations: nat)

  const EMPTY := Ledger([], 0, 0, 0)

  /**
   A call, with what the system does meanwhile: whether there is room for a new record, and what
   the underlying malloc, calloc or realloc returns.
   */
  datatype Call =
    | Malloc(size: nat, room: bool, result: Option<Pointer>)
    | Calloc(nmemb: nat, size: nat, room: bool, result: Option<Pointer>)
    | Realloc(ptr: Option<Pointer>, size: nat, room: bool, result: Option<Pointer>)
    | Free(ptr: Option<Pointer>)

  // ----- one call -----

  /** The index of the first record of a pointer, or the number of records. */
  function IndexOf(blocks: seq<Block>, ptr: Pointer): (i: nat)
    ensures i <= |blocks| && (i < |blocks| ==> blocks[i].ptr == ptr)
    ensures forall j :: 0 <= j < i ==> blocks[j].ptr != ptr
  {
    if blocks == [] || blocks[0].ptr == ptr then 0 else 1 + IndexOf(blocks[1..], ptr)
  }

  /** The ledger when the total has become `total` by a successful allocation. */
  function Counted(l: Ledger, blocks: seq<Block>, total: int): Ledger {
    Ledger(blocks, total, if l.maxSize < total then total else l.maxSize, l.allocations + 1)
  }

  function Added(l: Ledger, size: nat, room: bool, result: Option<Pointer>): Ledger {
    if room && result.Some? then Counted(l, [Block(result.value, size)] + l.blocks, l.totalSize + size) else l
  }

  function Step(l: Ledger, call: Call): Ledger {
    match call
    case Malloc(size, room, result) => Added(l, size, room, result)
    case Calloc(nmemb, size, room, result) => Added(l, nmemb * size, room, result)
    case Realloc(ptr, size, room, result) =>
      if ptr.None? then Added(l, size, room, result)
      else Resized(l, IndexOf(l.blocks, ptr.value), size, result)
    case Free(ptr) =>
      if ptr.None? then l else Dropped(l, IndexOf(l.blocks, ptr.value))
  }

  function Resized(l: Ledger, i: nat, size: nat, result: Option<Pointer>): Ledger {
    if i < |l.blocks| && result.Some? then
      Counted(l, l.blocks[i := Block(result.value, size)], l.totalSize - l.blocks[i].size + size)
    else l
  }

  function Dropped(l: Ledger, i: nat): Ledger {
    if i < |l.blocks| then
      l.(blocks := l.blocks[..i] + l.blocks[i + 1..], totalSize := l.totalSize - l.blocks[i].size)
    else l
  }

  // ----- what keeps through a run -----

  predicate Tracked(blocks: seq<Block>, ptr: Pointer) {
    exists i :: 0 <= i < |blocks| && blocks[i].ptr == ptr
  }

  ghost predicate Distinct(blocks: seq<Block>) {
    forall i, j :: 0 <= i < j < |blocks| ==> blocks[i].ptr != blocks[j].ptr
  }

  function Sum(blocks: seq<Block>): nat {
    if blocks == [] then 0 else blocks[0].size + Sum(blocks[1..])
  }

  /**
   What the underlying allocator promises: a block it hands out is none of the live ones, except
   that realloc may leave a block where it is.
   */
  ghost predicate Honest(l: Ledger, call: Call) {
    match call
    case Malloc(_, _, result) => result.Some? ==> !Tracked(l.blocks, result.value)
    case Calloc(_, _, _, result) => result.Some? ==> !Tracked(l.blocks, result.value)
    case Realloc(ptr, size, _, result) =>
      result.Some? ==> size > 0 && (ptr == result || !Tracked(l.blocks, result.value))
    case Free(_) => true
  }

  lemma {:induction false} SumSplit(a: seq<Block>, b: seq<Block>)
    ensures Sum(a + b) == Sum(a) + Sum(b)
  {
    if a == [] {
      assert a + b == b;
    } else {
      assert (a + b)[1..] == a[1..] + b;
      SumSplit(a[1..], b);
    }
  }

  lemma SumAt(blocks: seq<Block>, i: nat)
    requires i < |blocks|
    ensures Sum(blocks) == Sum(blocks[..i] + blocks[i + 1..]) + blocks[i].size
  {
    SumSplit(blocks[..i], blocks[i + 1..]);
    SumSplit(blocks[..i], blocks[i..]);
    assert blocks == blocks[..i] + blocks[i..];
    assert blocks[i..][1..] == blocks[i + 1..];
  }

  lemma SumWith(blocks: seq<Block>, i: nat, b: Block)
    requires i < |blocks|
    ensures Sum(blocks[i := b]) == Sum(blocks) - blocks[i].size + b.size
  {
    SumAt(blocks, i);
    SumAt(blocks[i := b], i);
    assert blocks[i := b][..i] == blocks[..i];
    assert blocks[i := b][i + 1..] == blocks[i + 1..];
  }

  /** The counters agree with the records. */
  ghost predicate Balanced(l: Ledger) {
    Distinct(l.blocks) && l.totalSize == Sum(l.blocks) && l.totalSize <= l.maxSize
  }

  lemma StepKeepsBalance(l: Ledger, call: Call)
    requires Balanced(l) && Honest(l, call)
    ensures Balanced(Step(l, call))
    ensures Step(l, call).maxSize ==
            if Step(l, call).totalSize > l.maxSize then Step(l, call).totalSize else l.maxSize
  {
    hide Sum;
    match call {
      case Malloc(size, _, result) => AddedKeepsBalance(l, size, result);
      case Calloc(nmemb, size, _, result) => AddedKeepsBalance(l, nmemb * size, result);
      case Realloc(ptr, size, _, result) =>
        if ptr.None? {
          AddedKeepsBalance(l, size, result);
        } else {
          var i := IndexOf(l.blocks, ptr.value);
          if i < |l.blocks| && result.Some? {
            SumWith(l.blocks, i, Block(result.value, size));
          }
        }
      case Free(ptr) =>
        if ptr.Some? {
          var i := IndexOf(l.blocks, ptr.value);
          if i < |l.blocks| {
            SumAt(l.blocks, i);
          }
        }
    }
  }

  lemma AddedKeepsBalance(l: Ledger, size: nat, result: Option<Pointer>)
    requires Balanced(l) && (result.Some? ==> !Tracked(l.blocks, result.value))
    ensures Balanced(Added(l, size, true, result))
  {
    if result.Some? {
      SumSplit([Block(result.value, size)], l.blocks);
      assert Sum([Block(result.value, size)]) == size;
    }
  }

  // ----- runs -----

  function Run(l: Ledger, calls: seq<Call>): Ledger
    decreases |calls|
  {
    if calls == [] then l else Run(Step(l, calls[0]), calls[1..])
  }

  ghost predicate HonestRun(l: Ledger, calls: seq<Call>)
    decreases |calls|
  {
    calls != [] ==> Honest(l, calls[0]) && HonestRun(Step(l, calls[0]), calls[1..])
  }

  function Max(a: int, b: int): int {
    if a < b then b else a
  }

  /** The largest total at any point of a run, its start included. */
  function Peak(l: Ledger, calls: seq<Call>): int
    decreases |calls|
  {
    if calls == [] then l.totalSize else Max(l.totalSize, Peak(Step(l, calls[0]), calls[1..]))
  }

  lemma {:induction false} RunKeepsBalance(l: Ledger, calls: seq<Call>)
    requires Balanced(l) && HonestRun(l, calls)
    ensures Balanced(Run(l, calls))
    ensures Run(l, calls).maxSize == Max(l.maxSize, Peak(l, calls))
    decreases |calls|
  {
    if calls != [] {
      StepKeepsBalance(l, calls[0]);
      RunKeepsBalance(Step(l, calls[0]), calls[1..]);
    }
  }

  /**
   From the initial ledger, over every run: the recorded pointers are pairwise distinct, the total
   is the sum of the recorded sizes, and the maximum is the largest total there has been.
   */
  lemma RunAccounts(calls: seq<Call>)
    requires HonestRun(EMPTY, calls)
    ensures var l := Run(EMPTY, calls);
            Distinct(l.blocks) && l.totalSize == Sum(l.blocks) && l.maxSize == Peak(EMPTY, calls)
  {
    RunKeepsBalance(EMPTY, calls);
    assert Peak(EMPTY, calls) >= 0;
  }

  // ----- the records as a map from live blocks to sizes -----

  function MapStep(m: map<Pointer, nat>, call: Call): map<Pointer, nat> {
    match call
    case Malloc(size, room, result) => if room && result.Some? then m[result.value := size] else m
    case Calloc(nmemb, size, room, result) => if room && result.Some? then m[result.value := nmemb * size] else m
    case Realloc(ptr, size, room, result) =>
      if ptr.None? && room && result.Some? then m[result.value := size]
      else if ptr.Some? && ptr.value in m && result.Some? then (m - {ptr.value})[result.value := size]
      else m
    case Free(ptr) => if ptr.Some? then m - {ptr.value} else m
  }

  function MapRun(m: map<Pointer, nat>, calls: seq<Call>): map<Pointer, nat>
    decreases |calls|
  {
    if calls == [] then m else MapRun(MapStep(m, calls[0]), calls[1..])
  }

  ghost predicate Represents(blocks: seq<Block>, m: map<Pointer, nat>) {
    && Distinct(blocks)
    && (forall i :: 0 <= i < |blocks| ==> blocks[i].ptr in m && m[blocks[i].ptr] == blocks[i].size)
    && forall p <- m :: Tracked(blocks, p)
  }

  lemma AddedRefinesMap(l: Ledger, m: map<Pointer, nat>, size: nat, ptr: Pointer)
    requires Represents(l.blocks, m) && !Tracked(l.blocks, ptr)
    ensures Represents([Block(ptr, size)] + l.blocks, m[ptr := size])
  {
    var blocks := [Block(ptr, size)] + l.blocks;
    forall p <- m[ptr := size]
      ensures Tracked(blocks, p)
    {
      if p == ptr {
        assert blocks[0].ptr == p;
      } else {
        var i :| 0 <= i < |l.blocks| && l.blocks[i].ptr == p;
        assert blocks[i + 1].ptr == p;
      }
    }
  }

  lemma ResizedRefinesMap(l: Ledger, m: map<Pointer, nat>, i: nat, size: nat, ptr: Pointer)
    requires Represents(l.blocks, m) && i < |l.blocks|
    requires ptr == l.blocks[i].ptr || !Tracked(l.blocks, ptr)
    ensures Represents(l.blocks[i := Block(ptr, size)], (m - {l.blocks[i].ptr})[ptr := size])
  {
    var blocks, after := l.blocks[i := Block(ptr, size)], (m - {l.blocks[i].ptr})[ptr := size];
    forall p <- after
      ensures Tracked(blocks, p)
    {
      if p == ptr {
        assert blocks[i].ptr == p;
      } else {
        var j :| 0 <= j < |l.blocks| && l.blocks[j].ptr == p;
        assert blocks[j].ptr == p;
      }
    }
  }

  lemma DroppedRefinesMap(l: Ledger, m: map<Pointer, nat>, i: nat)
    requires Represents(l.blocks, m) && i < |l.blocks|
    ensures Represents(l.blocks[..i] + l.blocks[i + 1..], m - {l.blocks[i].ptr})
  {
    hide Distinct;
    var blocks := l.blocks[..i] + l.blocks[i + 1..];
    DroppedDistinct(l.blocks, i);
    forall p <- m - {l.blocks[i].ptr}
      ensures Tracked(blocks, p)
    {
      var j :| 0 <= j < |l.blocks| && l.blocks[j].ptr == p;
      assert blocks[if j < i then j else j - 1].ptr == p;
    }
  }

  lemma DroppedDistinct(blocks: seq<Block>, i: nat)
    requires Distinct(blocks) && i < |blocks|
    ensures var rest := blocks[..i] + blocks[i + 1..];
            && Distinct(rest)
            && forall k :: 0 <= k < |rest| ==> rest[k] in blocks && rest[k].ptr != blocks[i].ptr
  {
    var rest := blocks[..i] + blocks[i + 1..];
    assert forall k :: 0 <= k < |rest| ==> rest[k] == blocks[if k < i then k else k + 1];
  }

  lemma StepRefinesMap(l: Ledger, m: map<Pointer, nat>, call: Call)
    requires Represents(l.blocks, m) && Honest(l, call)
    ensures Represents(Step(l, call).blocks, MapStep(m, call))
  {
    hide Represents;
    RepresentsDomain(l.blocks, m);
    match call {
      case Malloc(size, room, result) =>
        if room && result.Some? {
          AddedRefinesMap(l, m, size, result.value);
        }
      case Calloc(nmemb, size, room, result) =>
        if room && result.Some? {
          AddedRefinesMap(l, m, nmemb * size, result.value);
        }
      case Realloc(ptr, size, room, result) =>
        if ptr.Some? && result.Some? && Tracked(l.blocks, ptr.value) {
          ResizedRefinesMap(l, m, IndexOf(l.blocks, ptr.value), size, result.value);
        } else if ptr.None? && room && result.Some? {
          AddedRefinesMap(l, m, size, result.value);
        }
      case Free(ptr) =>
        if ptr.Some? {
          if Tracked(l.blocks, ptr.value) {
            DroppedRefinesMap(l, m, IndexOf(l.blocks, ptr.value));
          } else {
            assert m - {ptr.value} == m;
          }
        }
    }
  }

  lemma RepresentsDomain(blocks: seq<Block>, m: map<Pointer, nat>)
    requires Represents(blocks, m)
    ensures forall p :: p in m <==> Tracked(blocks, p)
  {
  }

  /**
   The list with its in-place updates, moved blocks and unlinked records is, after every run, the
   map from live blocks to requested sizes that the calls define.
   */
  lemma {:induction false} RunRefinesMap(l: Ledger, m: map<Pointer, nat>, calls: seq<Call>)
    requires Represents(l.blocks, m) && HonestRun(l, calls)
    ensures Represents(Run(l, calls).blocks, MapRun(m, calls))
    decreases |calls|
  {
    if calls != [] {
      StepRefinesMap(l, m, calls[0]);
      RunRefinesMap(Step(l, calls[0]), MapStep(m, calls[0]), calls[1..]);
    }
  }

  /** The calls that hand out memory which gets recorded, told from the map. */
  function Allocations(m: map<Pointer, nat>, calls: seq<Call>): nat
    decreases |calls|
  {
    if calls == [] then 0
    else
      var counts :=
        match calls[0]
        case Malloc(_, room, result) => room && result.Some?
        case Calloc(_, _, room, result) => room && result.Some?
        case Realloc(ptr, _, room, result) => result.Some? && if ptr.None? then room else ptr.value in m
        case Free(_) => false;
      (if counts then 1 else 0) + Allocations(MapStep(m, calls[0]), calls[1..])
  }

  /** The number of allocations reported is the number of these calls. */
  lemma {:induction false} RunCounts(l: Ledger, m: map<Pointer, nat>, calls: seq<Call>)
    requires Represents(l.blocks, m) && HonestRun(l, calls)
    ensures Run(l, calls).allocations == l.allocations + Allocations(m, calls)
    decreases |calls|
  {
    hide Represents, IndexOf;
    if calls != [] {
      StepRefinesMap(l, m, calls[0]);
      RepresentsDomain(l.blocks, m);
      RunCounts(Step(l, calls[0]), MapStep(m, calls[0]), calls[1..]);
      if calls[0].Realloc? && calls[0].ptr.Some? {
        IndexFound(l.blocks, calls[0].ptr.value);
      }
    }
  }

  lemma IndexFound(blocks: seq<Block>, ptr: Pointer)
    ensures IndexOf(blocks, ptr) < |blocks| <==> Tracked(blocks, ptr)
  {
  }

  /** A duplicate pointer from a dishonest allocator does break the records apart from any map. */
  lemma HonestyNeeded()
    ensures !Distinct(Run(EMPTY, [Malloc(1, true, Some(7)), Malloc(1, true, Some(7))]).blocks)
  {
    var calls := [Malloc(1, true, Some(7)), Malloc(1, true, Some(7))];
    var l := Step(Step(EMPTY, calls[0]), calls[1]);
    assert calls[1..][1..] == [];
    assert Run(EMPTY, calls) == l;
    assert l.blocks[0].ptr == l.blocks[1].ptr;
  }

  // ----- the linked list in place -----

  class Allocation {
    var size: nat
    var ptr: Pointer
    var next: Allocation?

    constructor (ptr: Pointer, size: nat, next: Allocation?)
      ensures this.ptr == ptr && this.size == size && this.next == next
    {
      this.ptr, this.size, this.next := ptr, size, next;
    }
  }

  /** The record at a position, or NULL past the last. */
  ghost function Nth(records: seq<Allocation>, i: nat): Allocation? {
    if i < |records| then records[i] else null
  }

  /** The records in the order of the list that starts at `head`. */
  ghost predicate Linked(head: Allocation?, records: seq<Allocation>)
    reads records`next
  {
    && (forall i, j :: 0 <= i < j < |records| ==> records[i] != records[j])
    && head == Nth(records, 0)
    && (forall i :: 0 <= i < |records| ==> records[i].next == Nth(records, i + 1))
  }

  lemma LinkedFront(first: Allocation, records: seq<Allocation>)
    requires Linked(first.next, records) && first !in records
    ensures Linked(first, [first] + records)
  {
  }

  lemma LinkedTail(head: Allocation?, records: seq<Allocation>)
    requires Linked(head, records) && records != []
    ensures Linked(records[0].next, records[1..])
  {
  }

  /** The list once the record before the i-th points past it. */
  lemma LinkedPast(head: Allocation?, records: seq<Allocation>, i: nat)
    requires 0 < i < |records| && head == Nth(records, 0)
    requires forall j, k :: 0 <= j < k < |records| ==> records[j] != records[k]
    requires forall k :: 0 <= k < |records| ==> records[k].next == Nth(records, if k == i - 1 then i + 1 else k + 1)
    ensures Linked(head, records[..i] + records[i + 1..])
  {
    var rest := records[..i] + records[i + 1..];
    RestAt(records, i);
    forall k | 0 <= k < |rest|
      ensures rest[k].next == Nth(rest, k + 1)
    {
      assert rest[k] == records[if k < i then k else k + 1];
    }
  }

  lemma RestAt(records: seq<Allocation>, i: nat)
    requires i < |records|
    ensures var rest := records[..i] + records[i + 1..];
            |rest| == |records| - 1 &&
            forall k :: 0 <= k < |rest| ==> rest[k] == records[if k < i then k else k + 1]
  {
  }

  /** What the records say of the blocks. */
  ghost function Blocks(records: seq<Allocation>): (blocks: seq<Block>)
    reads records`ptr, records`size
    ensures |blocks| == |records|
  {
    if records == [] then [] else [Block(records[0].ptr, records[0].size)] + Blocks(records[1..])
  }

  lemma {:induction false} BlocksAt(records: seq<Allocation>)
    ensures forall k :: 0 <= k < |records| ==> Blocks(records)[k] == Block(records[k].ptr, records[k].size)
  {
    if records != [] {
      BlocksAt(records[1..]);
    }
  }

  lemma BlocksJoined(a: seq<Allocation>, b: seq<Allocation>)
    ensures Blocks(a + b) == Blocks(a) + Blocks(b)
  {
    hide Blocks;
    BlocksAt(a);
    BlocksAt(b);
    BlocksAt(a + b);
  }

  lemma BlocksOfOne(record: Allocation)
    ensures Blocks([record]) == [Block(record.ptr, record.size)]
  {
    BlocksAt([record]);
  }

  lemma BlocksWithout(records: seq<Allocation>, i: nat)
    requires i < |records|
    ensures Blocks(records[..i] + records[i + 1..]) == Blocks(records)[..i] + Blocks(records)[i + 1..]
  {
    hide Blocks;
    var rest := records[..i] + records[i + 1..];
    RestAt(records, i);
    BlocksAt(records);
    BlocksAt(rest);
  }

  /** The walk stops at the first record of a pointer. */
  lemma FirstRecord(records: seq<Allocation>, ptr: Pointer, i: nat)
    requires i <= |records| && (i < |records| ==> records[i].ptr == ptr)
    requires forall j :: 0 <= j < i ==> records[j].ptr != ptr
    ensures IndexOf(Blocks(records), ptr) == i
  {
    hide Blocks;
    BlocksAt(records);
  }

  class Allocator {
    var initialized: bool
    var head: Allocation?
    var totalSize: int
    var maxSize: int
    var allocations: nat
    ghost var records: seq<Allocation>

    ghost predicate Valid()
      reads this, records`next
    {
      Linked(head, records)
    }

    ghost function Contents(): (l: Ledger)
      reads this, records`ptr, records`size
    {
      Ledger(Blocks(records), totalSize, maxSize, allocations)
    }

    /** The state before gballoc_init. */
    constructor ()
      ensures Valid() && Contents() == EMPTY && !initialized
    {
      initialized, head, totalSize, maxSize, allocations, records := false, null, 0, 0, 0, [];
    }

    /** gballoc_init, the lock left aside. */
    method Init() returns (ok: bool)
      requires Valid()
      modifies this
      ensures Valid() && ok == !old(initialized) && initialized
      ensures Contents() == if ok then EMPTY.(blocks := old(Contents().blocks)) else old(Contents())
    {
      ok := !initialized;
      if ok {
        initialized, totalSize, maxSize, allocations := true, 0, 0, 0;
      }
    }

    /** Puts a new record in front and counts it. */
    method Push(ptr: Pointer, size: nat)
      requires Valid()
      modifies this
      ensures Valid() && initialized == old(initialized)
      ensures forall r <- records :: r in old(records) || fresh(r)
      ensures Contents() == Added(old(Contents()), size, true, Some(ptr))
    {
      hide Blocks, Linked;
      var allocation := new Allocation(ptr, size, head);
      LinkedFront(allocation, records);
      BlocksJoined([allocation], records);
      BlocksOfOne(allocation);
      head := allocation;
      records := [allocation] + records;
      allocations := allocations + 1;
      totalSize := totalSize + size;
      if maxSize < totalSize {
        maxSize := totalSize;
      }
    }

    /** gballoc_malloc; without init the call is passed through and nothing is recorded. */
    method Malloc(size: nat, room: bool, underlying: Option<Pointer>) returns (result: Option<Pointer>)
      requires Valid()
      modifies this
      ensures Valid() && initialized == old(initialized)
      ensures forall r <- records :: r in old(records) || fresh(r)
      ensures result == if initialized && !room then None else underlying
      ensures Contents() ==
              if initialized then Step(old(Contents()), Call.Malloc(size, room, underlying)) else old(Contents())
    {
      result := underlying;
      if initialized {
        if !room {
          result := None;
        } else if result.Some? {
          Push(result.value, size);
        }
      }
    }

    /** gballoc_calloc. */
    method Calloc(nmemb: nat, size: nat, room: bool, underlying: Option<Pointer>) returns (result: Option<Pointer>)
      requires Valid()
      modifies this
      ensures Valid() && initialized == old(initialized)
      ensures forall r <- records :: r in old(records) || fresh(r)
      ensures result == if initialized && !room then None else underlying
      ensures Contents() ==
              if initialized then Step(old(Contents()), Call.Calloc(nmemb, size, room, underlying))
              else old(Contents())
    {
      result := underlying;
      if initialized {
        if !room {
          result := None;
        } else if result.Some? {
          Push(result.value, nmemb * size);
        }
      }
    }

    /** The walk for the record of a pointer. */
    method Find(ptr: Pointer) returns (curr: Allocation?, ghost i: nat)
      requires Valid()
      ensures i == IndexOf(Contents().blocks, ptr) && curr == Nth(records, i)
    {
      hide Blocks;
      curr, i := head, 0;
      while curr != null && curr.ptr != ptr
        invariant i <= |records| && curr == Nth(records, i)
        invariant forall j :: 0 <= j < i ==> records[j].ptr != ptr
        decreases |records| - i
      {
        curr := curr.next;
        i := i + 1;
      }
      FirstRecord(records, ptr, i);
    }

    /** gballoc_realloc: a tracked block is resized where its record stands, an unknown one refused. */
    method Realloc(ptr: Option<Pointer>, size: nat, room: bool, underlying: Option<Pointer>)
      returns (result: Option<Pointer>)
      requires Valid()
      modifies this, records
      ensures Valid() && initialized == old(initialized)
      ensures forall r <- records :: r in old(records) || fresh(r)
      ensures result ==
              if !initialized then underlying
              else if if ptr.None? then room else IndexOf(old(Contents().blocks), ptr.value) < |old(records)|
              then underlying else None
      ensures Contents() ==
              if initialized then Step(old(Contents()), Call.Realloc(ptr, size, room, underlying))
              else old(Contents())
    {
      result := underlying;
      if !initialized {
        return;
      }
      if ptr.None? {
        if !room {
          result := None;
        } else if result.Some? {
          Push(result.value, size);
        }
      } else {
        var allocation, i := Find(ptr.value);
        if allocation == null {
          result := None;
        } else if result.Some? {
          Resize(allocation, i, size, result.value);
        }
      }
    }

    method Resize(allocation: Allocation, ghost i: nat, size: nat, ptr: Pointer)
      requires Valid()
      requires i < |records| && allocation == records[i]
      modifies this, allocation
      ensures Valid() && initialized == old(initialized) && records == old(records)
      ensures Contents() == Resized(old(Contents()), i, size, Some(ptr))
    {
      hide Blocks;
      ghost var was := Blocks(records);
      BlocksAt(records);
      allocation.ptr := ptr;
      totalSize := totalSize - allocation.size;
      allocation.size := size;
      totalSize := totalSize + size;
      allocations := allocations + 1;
      if maxSize < totalSize {
        maxSize := totalSize;
      }
      BlocksAt(records);
      assert forall k :: 0 <= k < |records| && k != i ==> records[k] != allocation;
      assert Blocks(records) == was[i := Block(ptr, size)];
    }

    /** gballoc_free: unlinks and releases a tracked block; anything else is left alone. */
    method Free(ptr: Option<Pointer>) returns (released: bool)
      requires Valid()
      modifies this, records
      ensures Valid() && initialized == old(initialized)
      ensures forall r <- records :: r in old(records)
      ensures released == (!initialized ||
                           (ptr.Some? && IndexOf(old(Contents().blocks), ptr.value) < |old(records)|))
      ensures Contents() ==
              if initialized then Step(old(Contents()), Call.Free(ptr)) else old(Contents())
    {
      released := !initialized;
      if !initialized || ptr.None? {
        return;
      }
      var prev: Allocation?, curr, i := null, head, 0;
      while curr != null && curr.ptr != ptr.value
        invariant 0 <= i <= |records| && curr == Nth(records, i) && prev == if i == 0 then null else Nth(records, i - 1)
        invariant forall j :: 0 <= j < i ==> records[j].ptr != ptr.value
        decreases |records| - i
      {
        prev, curr, i := curr, curr.next, i + 1;
      }
      FirstRecord(records, ptr.value, i);
      if curr != null {
        released := true;
        Unlink(prev, curr, i);
      }
    }

    method Unlink(prev: Allocation?, curr: Allocation, ghost i: nat)
      requires Valid()
      requires i < |records| && curr == records[i] && prev == if i == 0 then null else records[i - 1]
      modifies this, records`next
      ensures Valid() && initialized == old(initialized)
      ensures forall r <- records :: r in old(records)
      ensures Contents() == Dropped(old(Contents()), i)
    {
      hide Blocks;
      BlocksAt(records);
      totalSize := totalSize - curr.size;
      Bypass(prev, curr, i);
    }

    /** The record before it, or the head, points past the record. */
    method Bypass(prev: Allocation?, curr: Allocation, ghost i: nat)
      requires Valid()
      requires i < |records| && curr == records[i] && prev == if i == 0 then null else records[i - 1]
      modifies this`head, this`records, records`next
      ensures Valid()
      ensures records == old(records[..i] + records[i + 1..])
      ensures Blocks(records) == old(Blocks(records)[..i] + Blocks(records)[i + 1..])
    {
      hide Blocks, Linked;
      BlocksWithout(records, i);
      ghost var rest := records[..i] + records[i + 1..];
      if prev != null {
        PointPast(prev, curr, i);
      } else {
        LinkedTail(head, records);
        head := curr.next;
        assert rest == records[1..];
      }
      records := rest;
    }

    method PointPast(prev: Allocation, curr: Allocation, ghost i: nat)
      requires Valid()
      requires 0 < i < |records| && curr == records[i] && prev == records[i - 1]
      modifies prev`next
      ensures Linked(head, records[..i] + records[i + 1..])
    {
      assert forall k :: 0 <= k < |records| && k != i - 1 ==> records[k] != prev;
      prev.next := curr.next;
      LinkedPast(head, records, i);
    }
  }
}
