/** The memory manager: page mappings over one pool of physical memory (crates/Statue/src/memory.rs). */
module PageManagers {
  import opened Bytes
  import opened PageTables
  import opened Sequences
  import opened Wrappers
  import opened Numbers

  // ---------------------------------------------------------------------
  // Access through mappings

  /** virtual_to_physical. */
  function Translate(s: Pages, vaddr: nat): (r: Result<nat>) {
    var page := PageOf(vaddr);
    if page in s.mappings then Ok(s.mappings[page].paddr + (vaddr - page)) else Err(InvalidAddress)
  }

  datatype ReadOutcome = Returned(result: Result<seq<byte>>) | Panic

  /** read_virtual, which does not look at the protection; slicing to an end before the start panics. */
  function ReadAt(s: Pages, memory: seq<byte>, vaddr: nat, size: u64): (r: ReadOutcome) {
    match Translate(s, vaddr)
    case Err(e) => Returned(Err(e))
    case Ok(at) =>
      var end := (at + size) % WORD_LIMIT;
      if end > |memory| then Returned(Err(InvalidOffset))
      else if end < at then Panic
      else Returned(Ok(memory[at..end]))
  }

  /** write_virtual: the memory afterwards. */
  function WriteAt(s: Pages, memory: seq<byte>, vaddr: nat, data: seq<byte>): (r: Result<seq<byte>>)
    ensures r.Ok? ==> |r.value| == |memory|
  {
    var page := PageOf(vaddr);
    if page !in s.mappings then Err(InvalidAddress)
    else if !s.mappings[page].protection.write then Err(PermissionDenied)
    else
      var at := s.mappings[page].paddr + (vaddr - page);
      if at + |data| > |memory| then Err(InvalidOffset)
      else Ok(Patched(memory, at, data))
  }

  /** The first byte an access to `vaddr` reaches. */
  function Target(s: Pages, vaddr: nat): (at: nat)
    requires PageOf(vaddr) in s.mappings
    ensures at == s.mappings[vaddr - vaddr % 4096].paddr + vaddr % 4096
  {
    s.mappings[PageOf(vaddr)].paddr + (vaddr - PageOf(vaddr))
  }

  /** Whatever was written is read back at the same address; a vector's length is a machine integer. */
  lemma WriteReadBack(s: Pages, memory: seq<byte>, vaddr: nat, data: seq<byte>, after: seq<byte>)
    requires WriteAt(s, memory, vaddr, data) == Ok(after) && |memory| < WORD_LIMIT
    ensures ReadAt(s, after, vaddr, |data|) == Returned(Ok(data))
  {
    hide PageOf;
    PatchedHere(memory, Target(s, vaddr), data);
  }

  lemma FramesApart(p: nat, q: nat, total: nat)
    requires IsFrame(p, total) && IsFrame(q, total) && p != q
    ensures p + PAGE_SIZE <= q || q + PAGE_SIZE <= p
  {
  }

  lemma FrameFits(p: nat, total: nat)
    requires IsFrame(p, total)
    ensures p + PAGE_SIZE <= PAGE_SIZE * total
  {
  }

  lemma MappedFrame(s: Pages, total: nat, page: nat)
    requires Partition(s, total) && page in s.mappings
    ensures IsFrame(s.mappings[page].paddr, total)
  {
    hide IsFrame;
    assert s.mappings[page].paddr in Physical(s.mappings);
  }

  /**
   Exactly what reading a mapped address does: a size that takes the sum past 64
   bits panics, an end past the memory is refused, and anything else is the bytes.
   */
  lemma ReadExactly(s: Pages, total: nat, memory: seq<byte>, vaddr: nat, size: u64)
    requires Partition(s, total) && |memory| == PAGE_SIZE * total < WORD_LIMIT && PageOf(vaddr) in s.mappings
    ensures var at, r := Target(s, vaddr), ReadAt(s, memory, vaddr, size);
            && at < |memory|
            && (r == Panic <==> at + size >= WORD_LIMIT)
            && (r == Returned(Err(InvalidOffset)) <==> |memory| < at + size < WORD_LIMIT)
            && (at + size <= |memory| ==> r == Returned(Ok(memory[at..at + size])))
  {
    hide Partition, IsFrame;
    MappedFrame(s, total, PageOf(vaddr));
    FrameFits(s.mappings[PageOf(vaddr)].paddr, total);
    WrapAround(Target(s, vaddr), size);
  }

  lemma WrapAround(at: u64, size: u64)
    ensures (at + size) % WORD_LIMIT == if at + size < WORD_LIMIT then at + size else at + size - WORD_LIMIT
  {
  }

  /**
   Exactly what writing does: an address that is not mapped, a page that may not
   be written and an end past the memory are refused, in this order, and
   anything else replaces the bytes from the address on.
   */
  lemma WriteExactly(s: Pages, memory: seq<byte>, vaddr: nat, data: seq<byte>)
    ensures var r := WriteAt(s, memory, vaddr, data);
            if PageOf(vaddr) !in s.mappings then r == Err(InvalidAddress)
            else
              var at, writable := Target(s, vaddr), s.mappings[PageOf(vaddr)].protection.write;
              && (r == Err(PermissionDenied) <==> !writable)
              && (r == Err(InvalidOffset) <==> writable && at + |data| > |memory|)
              && (r.Ok? <==> writable && at + |data| <= |memory|)
              && (r.Ok? ==>
                    |r.value| == |memory| &&
                    forall i :: 0 <= i < |memory| ==>
                      r.value[i] == if at <= i < at + |data| then data[i - at] else memory[i])
  {
    hide PageOf;
  }

  /** After write access is taken from a page every write to it is refused, and its bytes stay readable as they are. */
  lemma ProtectedStays(s: Pages, memory: seq<byte>, vaddr: nat, protection: Protection, other: nat, data: seq<byte>, size: u64)
    requires PageOf(vaddr) in s.mappings && PageOf(other) == PageOf(vaddr)
    ensures var s' := ProtectPage(s, vaddr, protection).0;
            && (!protection.write ==> WriteAt(s', memory, other, data) == Err(PermissionDenied))
            && (protection.write ==> WriteAt(s', memory, other, data) != Err(PermissionDenied))
            && ReadAt(s', memory, other, size) == ReadAt(s, memory, other, size)
  {
    hide PageOf;
  }

  /** The bytes behind a mapped page. */
  function PageBytes(s: Pages, memory: seq<byte>, page: nat): (b: seq<byte>)
    requires page in s.mappings && s.mappings[page].paddr + PAGE_SIZE <= |memory|
  {
    memory[s.mappings[page].paddr..s.mappings[page].paddr + PAGE_SIZE]
  }

  lemma Separate(s: Pages, total: nat, v: nat, w: nat)
    requires Partition(s, total) && v in s.mappings && w in s.mappings && v != w
    ensures s.mappings[v].paddr != s.mappings[w].paddr
  {
  }

  /** Every byte behind every mapping after a write of any length. */
  lemma WriteBytes(s: Pages, total: nat, memory: seq<byte>, vaddr: nat, data: seq<byte>, after: seq<byte>, other: nat, i: nat)
    requires Partition(s, total) && |memory| == PAGE_SIZE * total
    requires WriteAt(s, memory, vaddr, data) == Ok(after)
    requires other in s.mappings && i < PAGE_SIZE
    ensures s.mappings[other].paddr + PAGE_SIZE <= |memory|
    ensures var at, c := Target(s, vaddr), s.mappings[other].paddr + i;
            PageBytes(s, after, other)[i] == if at <= c < at + |data| then data[c - at] else memory[c]
  {
    hide PageOf, IsFrame, Partition;
    MappedFrame(s, total, other);
    FrameFits(s.mappings[other].paddr, total);
  }

  /** A mapped frame that shares bytes with `[at, at + size)`. */
  predicate FrameMeets(s: Pages, other: nat, at: nat, size: nat)
    requires other in s.mappings
  {
    s.mappings[other].paddr < at + size && at < s.mappings[other].paddr + PAGE_SIZE
  }

  /** No other mapping's frame meets the bytes that a write of `size` bytes reaches. */
  predicate Clear(s: Pages, vaddr: nat, size: nat)
    requires PageOf(vaddr) in s.mappings
  {
    forall other :: other in s.mappings && other != PageOf(vaddr) && size > 0 ==>
      !FrameMeets(s, other, Target(s, vaddr), size)
  }

  /** Every write of `size` bytes at `vaddr` keeps the bytes behind every other mapping. */
  ghost predicate KeepsOthers(s: Pages, memory: seq<byte>, vaddr: nat, size: nat)
    requires forall v :: v in s.mappings ==> s.mappings[v].paddr + PAGE_SIZE <= |memory|
  {
    forall data: seq<byte>, other ::
      |data| == size && other in s.mappings && other != PageOf(vaddr) && WriteAt(s, memory, vaddr, data).Ok? ==>
        PageBytes(s, WriteAt(s, memory, vaddr, data).value, other) == PageBytes(s, memory, other)
  }

  lemma FramesFit(s: Pages, total: nat)
    requires Partition(s, total)
    ensures forall v :: v in s.mappings ==> s.mappings[v].paddr + PAGE_SIZE <= PAGE_SIZE * total
  {
    hide Partition, IsFrame;
    forall v | v in s.mappings
      ensures s.mappings[v].paddr + PAGE_SIZE <= PAGE_SIZE * total
    {
      MappedFrame(s, total, v);
      FrameFits(s.mappings[v].paddr, total);
    }
  }

  lemma ClearKeeps(s: Pages, total: nat, memory: seq<byte>, vaddr: nat, data: seq<byte>, after: seq<byte>, other: nat)
    requires Partition(s, total) && |memory| == PAGE_SIZE * total
    requires WriteAt(s, memory, vaddr, data) == Ok(after) && Clear(s, vaddr, |data|)
    requires other in s.mappings && other != PageOf(vaddr)
    ensures s.mappings[other].paddr + PAGE_SIZE <= |memory|
    ensures PageBytes(s, after, other) == PageBytes(s, memory, other)
  {
    hide PageOf, IsFrame, Partition;
    MappedFrame(s, total, other);
    FrameFits(s.mappings[other].paddr, total);
    var theirs := s.mappings[other].paddr;
    if data == [] {
      assert after == memory;
    } else {
      PatchedElsewhere(memory, Target(s, vaddr), data, theirs, theirs + PAGE_SIZE);
    }
  }

  function Different(b: byte): (d: byte)
    ensures d != b
  {
    if b == 0 then 1 else 0
  }

  /** Bytes that differ everywhere from what is there. */
  function Changed(memory: seq<byte>, at: nat, size: nat): (data: seq<byte>)
    requires at + size <= |memory|
    ensures |data| == size && forall i :: 0 <= i < size ==> data[i] != memory[at + i]
    decreases size
  {
    if size == 0 then [] else Changed(memory, at, size - 1) + [Different(memory[at + size - 1])]
  }

  lemma MeetingChanges(s: Pages, total: nat, memory: seq<byte>, vaddr: nat, size: nat, other: nat)
    requires Partition(s, total) && |memory| == PAGE_SIZE * total && size > 0
    requires PageOf(vaddr) in s.mappings && s.mappings[PageOf(vaddr)].protection.write
    requires Target(s, vaddr) + size <= |memory|
    requires other in s.mappings && FrameMeets(s, other, Target(s, vaddr), size)
    ensures s.mappings[other].paddr + PAGE_SIZE <= |memory|
    ensures var data := Changed(memory, Target(s, vaddr), size);
            && WriteAt(s, memory, vaddr, data).Ok?
            && PageBytes(s, WriteAt(s, memory, vaddr, data).value, other) != PageBytes(s, memory, other)
  {
    hide PageOf, IsFrame, Partition, WriteAt, Changed;
    var at, theirs := Target(s, vaddr), s.mappings[other].paddr;
    var data := Changed(memory, at, size);
    WriteSucceeds(s, memory, vaddr, data);
    var c := if theirs <= at then at else theirs;
    MappedFrame(s, total, other);
    FrameFits(theirs, total);
    WriteBytes(s, total, memory, vaddr, data, WriteAt(s, memory, vaddr, data).value, other, c - theirs);
    assert data[c - at] != memory[at + (c - at)];
    assert PageBytes(s, memory, other)[c - theirs] == memory[c];
  }

  lemma WriteSucceeds(s: Pages, memory: seq<byte>, vaddr: nat, data: seq<byte>)
    requires PageOf(vaddr) in s.mappings && s.mappings[PageOf(vaddr)].protection.write
    requires Target(s, vaddr) + |data| <= |memory|
    ensures WriteAt(s, memory, vaddr, data).Ok?
  {
  }

  /**
   Theorem: writes of `size` bytes that the manager accepts keep the bytes
   behind every other mapping if and only if no other mapped frame meets the
   bytes written.
   */
  lemma OthersKeptExactly(s: Pages, total: nat, memory: seq<byte>, vaddr: nat, size: nat)
    requires Partition(s, total) && |memory| == PAGE_SIZE * total
    requires PageOf(vaddr) in s.mappings && s.mappings[PageOf(vaddr)].protection.write
    requires Target(s, vaddr) + size <= |memory|
    ensures forall v :: v in s.mappings ==> s.mappings[v].paddr + PAGE_SIZE <= |memory|
    ensures KeepsOthers(s, memory, vaddr, size) <==> Clear(s, vaddr, size)
  {
    hide PageOf, Partition, WriteAt, FrameMeets;
    FramesFit(s, total);
    if Clear(s, vaddr, size) {
      forall data: seq<byte>, other |
        |data| == size && other in s.mappings && other != PageOf(vaddr) && WriteAt(s, memory, vaddr, data).Ok?
        ensures PageBytes(s, WriteAt(s, memory, vaddr, data).value, other) == PageBytes(s, memory, other)
      {
        ClearKeeps(s, total, memory, vaddr, data, WriteAt(s, memory, vaddr, data).value, other);
      }
    } else {
      var other :| other in s.mappings && other != PageOf(vaddr) && size > 0 && FrameMeets(s, other, Target(s, vaddr), size);
      MeetingChanges(s, total, memory, vaddr, size, other);
    }
  }

  /** A write that stays in its page is clear of every other mapping. */
  lemma InPageIsClear(s: Pages, total: nat, vaddr: nat, size: nat)
    requires Partition(s, total) && PageOf(vaddr) in s.mappings && vaddr - PageOf(vaddr) + size <= PAGE_SIZE
    ensures Clear(s, vaddr, size)
  {
    hide PageOf, IsFrame, Partition;
    var page := PageOf(vaddr);
    forall other | other in s.mappings && other != page && size > 0
      ensures !FrameMeets(s, other, Target(s, vaddr), size)
    {
      MappedFrame(s, total, page);
      MappedFrame(s, total, other);
      Separate(s, total, page, other);
      FramesApart(s.mappings[page].paddr, s.mappings[other].paddr, total);
    }
  }

  /** A write that stays in its page changes no byte behind any other mapping. */
  lemma InPageWrite(s: Pages, total: nat, memory: seq<byte>, vaddr: nat, data: seq<byte>, after: seq<byte>, other: nat)
    requires Partition(s, total) && |memory| == PAGE_SIZE * total
    requires WriteAt(s, memory, vaddr, data) == Ok(after)
    requires vaddr - PageOf(vaddr) + |data| <= PAGE_SIZE
    requires other in s.mappings && other != PageOf(vaddr)
    ensures s.mappings[other].paddr + PAGE_SIZE <= |memory|
    ensures PageBytes(s, after, other) == PageBytes(s, memory, other)
  {
    hide PageOf, Partition, Clear;
    InPageIsClear(s, total, vaddr, |data|);
    ClearKeeps(s, total, memory, vaddr, data, after, other);
  }

  /** From a pool of two pages, mapping two addresses gives the second the lower frame. */
  lemma TwoMapped(v: u64, w: u64, protection: Protection)
    requires PageOf(v) != PageOf(w)
    ensures var s := Run(Start(2), [Map(v, protection), Map(w, protection)]);
            && s.mappings.Keys == {PageOf(v), PageOf(w)}
            && s.mappings[PageOf(v)] == VirtualPage(PageOf(v), PAGE_SIZE, protection)
            && s.mappings[PageOf(w)] == VirtualPage(PageOf(w), 0, protection)
  {
    hide PageOf;
    var steps: seq<Step> := [Map(v, protection), Map(w, protection)];
    assert steps[..1] == [Map(v, protection)] && steps[..1][..0] == [];
    assert Start(2).free == [0, PAGE_SIZE];
    var s1 := Run(Start(2), steps[..1]);
    assert Run(Start(2), steps[..1][..0]) == Start(2);
    assert s1 == MapPage(Start(2), v, protection).0;
    assert s1.free == [0];
  }

  /** So one byte written past the end of the second page changes the first byte of the first. */
  lemma SpillIsReachable(v: u64, w: u64, protection: Protection, memory: seq<byte>, data: seq<byte>)
    requires PageOf(v) != PageOf(w) && protection.write && |memory| == PAGE_SIZE * 2 && |data| == PAGE_SIZE + 1
    ensures var s := Run(Start(2), [Map(v, protection), Map(w, protection)]);
            && Partition(s, 2) && PageOf(v) in s.mappings && s.mappings[PageOf(v)].paddr + PAGE_SIZE <= |memory|
            && WriteAt(s, memory, PageOf(w), data).Ok?
            && PageBytes(s, WriteAt(s, memory, PageOf(w), data).value, PageOf(v))
               == [data[PAGE_SIZE]] + PageBytes(s, memory, PageOf(v))[1..]
  {
    hide PageOf, Partition, Run;
    var s := Run(Start(2), [Map(v, protection), Map(w, protection)]);
    RunPartition(2, [Map(v, protection), Map(w, protection)]);
    TwoMapped(v, w, protection);
    PageOfPage(w);
    var after := WriteAt(s, memory, PageOf(w), data).value;
    assert after == memory[..0] + data + memory[PAGE_SIZE + 1..];
    var got := PageBytes(s, after, PageOf(v));
    assert got == after[PAGE_SIZE..PAGE_SIZE * 2];
  }

  lemma PageOfPage(a: nat)
    ensures PageOf(PageOf(a)) == PageOf(a)
  {
  }

  // ---------------------------------------------------------------------
  // The manager

  datatype MemoryStats = MemoryStats(totalMemory: nat, usedMemory: nat, freeMemory: nat, mappedPages: nat)

  class RealMemoryManager {
    const physical: array<byte>
    var mappings: map<nat, VirtualPage>
    var free: seq<nat>

    function State(): (s: Pages)
      reads this
    {
      Pages(mappings, free)
    }

    function Total(): (n: nat) {
      physical.Length / PAGE_SIZE
    }

    ghost predicate Valid()
      reads this
    {
      physical.Length % PAGE_SIZE == 0 && Partition(State(), Total())
    }

    constructor (memory: array<byte>, pages: seq<nat>)
      requires memory.Length % PAGE_SIZE == 0 && pages == Start(memory.Length / PAGE_SIZE).free
      ensures Valid() && State() == Start(Total()) && physical == memory
    {
      physical := memory;
      mappings := map[];
      free := pages;
      StartPartition(memory.Length / PAGE_SIZE);
    }

    /** Every page is free at first, and all memory is zero. */
    static method New(memorySize: nat) returns (r: Result<RealMemoryManager>)
      ensures r.Ok? <==> memorySize % PAGE_SIZE == 0
      ensures r.Err? ==> r.error == InvalidAlignment
      ensures r.Ok? ==> fresh(r.value) && r.value.Valid() && r.value.physical.Length == memorySize
      ensures r.Ok? ==> r.value.State() == Start(memorySize / PAGE_SIZE)
      ensures r.Ok? ==> forall i :: 0 <= i < memorySize ==> r.value.physical[i] == 0
    {
      if memorySize % PAGE_SIZE != 0 {
        return Err(InvalidAlignment);
      }
      var numPages := memorySize / PAGE_SIZE;
      var memory := new byte[memorySize](i => 0);
      var pages := [];
      for i := 0 to numPages
        invariant pages == Start(i).free
      {
        pages := pages + [i * PAGE_SIZE];
      }
      var manager := new RealMemoryManager(memory, pages);
      return Ok(manager);
    }

    method AllocatePhysicalPage() returns (r: Result<nat>)
      modifies this`free
      ensures old(free) == [] ==> r == Err(AllocationFailed) && free == []
      ensures old(free) != [] ==> r.Ok? && old(free) == free + [r.value]
    {
      if free == [] {
        return Err(AllocationFailed);
      }
      r := Ok(free[|free| - 1]);
      free := free[..|free| - 1];
    }

    method FreePhysicalPage(paddr: nat)
      modifies this`free
      ensures free == old(free) + [paddr]
    {
      free := free + [paddr];
    }

    method Map(vaddr: nat, protection: Protection) returns (r: Result<nat>)
      requires Valid()
      modifies this
      ensures Valid() && (State(), r) == MapPage(old(State()), vaddr, protection)
    {
      hide PageOf, Partition;
      MapPartition(State(), Total(), vaddr, protection);
      var page := PageOf(vaddr);
      if page in mappings {
        return Err(InvalidAddress);
      }
      r := AllocatePhysicalPage();
      if r.Ok? {
        assert free == old(free)[..|old(free)| - 1];
        mappings := mappings[page := VirtualPage(page, r.value, protection)];
      }
    }

    method Unmap(vaddr: nat) returns (r: Result<()>)
      requires Valid()
      modifies this
      ensures Valid() && (State(), r) == UnmapPage(old(State()), vaddr)
    {
      hide PageOf, Partition;
      UnmapPartition(State(), Total(), vaddr);
      var page := PageOf(vaddr);
      if page !in mappings {
        return Err(InvalidAddress);
      }
      var entry := mappings[page];
      mappings := mappings - {page};
      FreePhysicalPage(entry.paddr);
      return Ok(());
    }

    method Protect(vaddr: nat, protection: Protection) returns (r: Result<()>)
      requires Valid()
      modifies this`mappings
      ensures Valid() && (State(), r) == ProtectPage(old(State()), vaddr, protection)
    {
      hide PageOf, Partition;
      ProtectPartition(State(), Total(), vaddr, protection);
      var page := PageOf(vaddr);
      if page !in mappings {
        return Err(InvalidAddress);
      }
      mappings := mappings[page := mappings[page].(protection := protection)];
      return Ok(());
    }

    /** The cleanup loop of map_range. */
    method UnmapEach(addresses: seq<nat>)
      requires Valid()
      modifies this
      ensures Valid() && State() == Cleanup(old(State()), addresses)
    {
      hide UnmapPage, Partition;
      assert addresses[0..] == addresses;
      for i := 0 to |addresses|
        invariant Valid()
        invariant Cleanup(State(), addresses[i..]) == Cleanup(old(State()), addresses)
      {
        assert addresses[i..][1..] == addresses[i + 1..];
        var ignored := Unmap(addresses[i]);
      }
    }

    /** map_range; all address arithmetic wraps. */
    method MapEach(vaddr: u64, size: u64, protection: Protection) returns (r: Result<seq<nat>>)
      requires Valid()
      modifies this
      ensures Valid() && (State(), r) == MapRange(old(State()), vaddr, size, protection)
    {
      hide MapPage, Partition, PageOf;
      var startPage := PageOf(vaddr);
      var endAddr := (vaddr + size) % WORD_LIMIT;
      var endPage := PageOf((endAddr + PAGE_SIZE - 1) % WORD_LIMIT);
      var numPages := (endPage + WORD_LIMIT - startPage) % WORD_LIMIT / PAGE_SIZE;
      ghost var pages := RangePages(vaddr, size);
      hide PageCount;
      var mapped: seq<nat> := [];
      assert pages[0..] == pages;
      for i := 0 to numPages
        invariant Valid()
        invariant MapAll(State(), pages[i..], protection, mapped) == MapRange(old(State()), vaddr, size, protection)
      {
        assert pages[i..][1..] == pages[i + 1..];
        var page := Map((startPage + i * PAGE_SIZE) % WORD_LIMIT, protection);
        match page {
          case Ok(paddr) =>
            mapped := mapped + [paddr];
          case Err(e) =>
            UnmapEach(mapped);
            return Err(e);
        }
      }
      return Ok(mapped);
    }

    method ReadVirtual(vaddr: nat, size: u64) returns (r: ReadOutcome)
      ensures r == ReadAt(State(), physical[..], vaddr, size)
    {
      hide PageOf;
      var at := Translate(State(), vaddr);
      match at {
        case Err(e) => return Returned(Err(e));
        case Ok(offset) =>
          var end := (offset + size) % WORD_LIMIT;
          if end > physical.Length {
            return Returned(Err(InvalidOffset));
          }
          if end < offset {
            return Panic;
          }
          return Returned(Ok(physical[offset..end]));
      }
    }

    method WriteVirtual(vaddr: nat, data: seq<byte>) returns (r: Result<()>)
      modifies physical
      ensures match WriteAt(State(), old(physical[..]), vaddr, data)
              case Ok(after) => r == Ok(()) && physical[..] == after
              case Err(e) => r == Err(e) && physical[..] == old(physical[..])
    {
      hide PageOf;
      var page := PageOf(vaddr);
      if page !in mappings {
        return Err(InvalidAddress);
      }
      if !mappings[page].protection.write {
        return Err(PermissionDenied);
      }
      var offset := mappings[page].paddr + (vaddr - page);
      if offset + |data| > physical.Length {
        return Err(InvalidOffset);
      }
      forall i | 0 <= i < |data| {
        physical[offset + i] := data[i];
      }
      return Ok(());
    }

    /** Used memory is the mapped pages times the page size, and with the free memory it is all there is. */
    method Stats() returns (stats: MemoryStats)
      requires Valid()
      ensures stats.mappedPages == |mappings| && stats.usedMemory == |mappings| * PAGE_SIZE
      ensures stats.totalMemory == physical.Length == stats.usedMemory + stats.freeMemory
    {
      var totalPages := physical.Length / PAGE_SIZE;
      var freePages := |free|;
      var usedPages := totalPages - freePages;
      stats := MemoryStats(physical.Length, usedPages * PAGE_SIZE, freePages * PAGE_SIZE, |mappings|);
    }
  }
}
