/** Page mappings and the free-page stack as values (crates/Statue/src/memory.rs). */
module PageTables {
  import opened Wrappers
  import opened Numbers

  datatype Error =
    | InvalidAlignment | InvalidAddress | AllocationFailed | PermissionDenied | InvalidOffset

  type Result<T> = Fallible<T, Error>

  const PAGE_SIZE: nat := 4096

  /** How many pages 64-bit addresses make up. */
  const PAGES: nat := 0x10_0000_0000_0000

  datatype Protection = Protection(read: bool, write: bool, execute: bool, present: bool)

  datatype VirtualPage = VirtualPage(vaddr: nat, paddr: nat, protection: Protection)

  datatype Pages = Pages(mappings: map<nat, VirtualPage>, free: seq<nat>)

  /** The page an address lies in. */
  function PageOf(a: nat): (p: nat)
    ensures p == a - a % 4096 && p % 4096 == 0 && p <= a < p + 4096
  {
    a / PAGE_SIZE * PAGE_SIZE
  }

  // ---------------------------------------------------------------------
  // Steps

  /** map_page: the last free page is taken. */
  function MapPage(s: Pages, vaddr: nat, protection: Protection): (r: (Pages, Result<nat>)) {
    var page := PageOf(vaddr);
    if page in s.mappings then (s, Err(InvalidAddress))
    else if s.free == [] then (s, Err(AllocationFailed))
    else
      var last := |s.free| - 1;
      var paddr := s.free[last];
      (Pages(s.mappings[page := VirtualPage(page, paddr, protection)], s.free[..last]), Ok(paddr))
  }

  /** unmap_page: the page goes back on top. */
  function UnmapPage(s: Pages, vaddr: nat): (r: (Pages, Result<()>)) {
    var page := PageOf(vaddr);
    if page in s.mappings then (Pages(s.mappings - {page}, s.free + [s.mappings[page].paddr]), Ok(()))
    else (s, Err(InvalidAddress))
  }

  /** protect_page. */
  function ProtectPage(s: Pages, vaddr: nat, protection: Protection): (r: (Pages, Result<()>)) {
    var page := PageOf(vaddr);
    if page in s.mappings then
      (s.(mappings := s.mappings[page := s.mappings[page].(protection := protection)]), Ok(()))
    else (s, Err(InvalidAddress))
  }

  /** The cleanup of map_range: the physical addresses are unmapped as if they were virtual ones. */
  function Cleanup(s: Pages, addresses: seq<nat>): (r: Pages)
    decreases |addresses|
  {
    if addresses == [] then s else Cleanup(UnmapPage(s, addresses[0]).0, addresses[1..])
  }

  /** The loop of map_range, over the pages still to be mapped. */
  function MapAll(s: Pages, pages: seq<nat>, protection: Protection, done: seq<nat>): (r: (Pages, Result<seq<nat>>))
    decreases |pages|
  {
    if pages == [] then (s, Ok(done))
    else
      var (next, paddr) := MapPage(s, pages[0], protection);
      match paddr
      case Ok(p) => MapAll(next, pages[1..], protection, done + [p])
      case Err(e) => (Cleanup(next, done), Err(e))
  }

  /** Consecutive pages, starting over at zero after the last one. */
  function PagesFrom(start: nat, count: nat): (pages: seq<nat>)
    ensures |pages| == count
  {
    seq(count, i => (start + PAGE_SIZE * i) % WORD_LIMIT)
  }

  /** num_pages: every operation wraps. */
  function PageCount(vaddr: u64, size: u64): (n: nat) {
    var endPage := PageOf(((vaddr + size) % WORD_LIMIT + PAGE_SIZE - 1) % WORD_LIMIT);
    (endPage + WORD_LIMIT - PageOf(vaddr)) % WORD_LIMIT / PAGE_SIZE
  }

  /** The pages map_range goes through. */
  function RangePages(vaddr: u64, size: u64): (pages: seq<nat>) {
    PagesFrom(PageOf(vaddr), PageCount(vaddr, size))
  }

  /** map_range. */
  function MapRange(s: Pages, vaddr: u64, size: u64, protection: Protection): (r: (Pages, Result<seq<nat>>)) {
    MapAll(s, RangePages(vaddr, size), protection, [])
  }

  datatype Step =
    | Map(vaddr: u64, protection: Protection)
    | Unmap(vaddr: u64)
    | Protect(vaddr: u64, protection: Protection)
    | Range(vaddr: u64, size: u64, protection: Protection)

  function Next(s: Pages, step: Step): (r: Pages) {
    match step
    case Map(vaddr, protection) => MapPage(s, vaddr, protection).0
    case Unmap(vaddr) => UnmapPage(s, vaddr).0
    case Protect(vaddr, protection) => ProtectPage(s, vaddr, protection).0
    case Range(vaddr, size, protection) => MapRange(s, vaddr, size, protection).0
  }

  function Run(s: Pages, steps: seq<Step>): (r: Pages) {
    if steps == [] then s else Next(Run(s, steps[..|steps| - 1]), steps[|steps| - 1])
  }

  function Start(total: nat): (s: Pages) {
    Pages(map[], seq(total, i => PAGE_SIZE * i))
  }

  // ---------------------------------------------------------------------
  // The partition of physical memory

  predicate IsFrame(p: nat, total: nat) {
    p % PAGE_SIZE == 0 && p < PAGE_SIZE * total
  }

  function Physical(m: map<nat, VirtualPage>): (s: set<nat>) {
    set v | v in m :: m[v].paddr
  }

  predicate Distinct(s: seq<nat>) {
    forall i, j :: 0 <= i < j < |s| ==> s[i] != s[j]
  }

  predicate Injective(m: map<nat, VirtualPage>) {
    forall v, w :: v in m && w in m && v != w ==> m[v].paddr != m[w].paddr
  }

  /** Every physical page is either free, once, or mapped, once. */
  ghost predicate Partition(s: Pages, total: nat) {
    && Distinct(s.free)
    && Injective(s.mappings)
    && (forall p :: p in s.free ==> p !in Physical(s.mappings))
    && (forall p: nat :: IsFrame(p, total) <==> p in s.free || p in Physical(s.mappings))
    && |s.free| + |s.mappings| == total
    && (forall v :: v in s.mappings ==> v % PAGE_SIZE == 0 && s.mappings[v].vaddr == v)
  }

  lemma FrameNumber(p: nat, total: nat)
    requires IsFrame(p, total)
    ensures p / PAGE_SIZE < total && PAGE_SIZE * (p / PAGE_SIZE) == p
  {
  }

  lemma FrameOf(i: nat, total: nat)
    requires i < total
    ensures IsFrame(PAGE_SIZE * i, total)
  {
  }

  lemma StartPartition(total: nat)
    ensures Partition(Start(total), total)
  {
    hide IsFrame;
    var free := Start(total).free;
    forall p: nat
      ensures IsFrame(p, total) <==> p in free
    {
      if IsFrame(p, total) {
        FrameNumber(p, total);
        assert free[p / PAGE_SIZE] == p;
      }
      if p in free {
        var i :| 0 <= i < total && free[i] == p;
        FrameOf(i, total);
      }
    }
  }

  lemma TakeLast(free: seq<nat>)
    requires Distinct(free) && free != []
    ensures var init, last := free[..|free| - 1], free[|free| - 1];
            Distinct(init) && last !in init && forall p :: p in free <==> p in init || p == last
  {
    assert free == free[..|free| - 1] + [free[|free| - 1]];
  }

  lemma InjectiveInsert(m: map<nat, VirtualPage>, page: nat, entry: VirtualPage)
    requires Injective(m) && page !in m && entry.paddr !in Physical(m)
    ensures Injective(m[page := entry])
  {
    assert forall v :: v in m ==> m[v].paddr in Physical(m);
  }

  lemma MapPartition(s: Pages, total: nat, vaddr: nat, protection: Protection)
    requires Partition(s, total)
    ensures Partition(MapPage(s, vaddr, protection).0, total)
  {
    hide PageOf, IsFrame, Distinct, Injective, Physical;
    var page := PageOf(vaddr);
    if page !in s.mappings && s.free != [] {
      var entry := VirtualPage(page, s.free[|s.free| - 1], protection);
      TakeLast(s.free);
      InjectiveInsert(s.mappings, page, entry);
      PhysicalInsert(s.mappings, page, entry);
    }
  }

  lemma PhysicalInsert(m: map<nat, VirtualPage>, page: nat, entry: VirtualPage)
    requires page !in m
    ensures Physical(m[page := entry]) == Physical(m) + {entry.paddr}
  {
    var after := m[page := entry];
    forall p | p in Physical(m) + {entry.paddr}
      ensures p in Physical(after)
    {
      if p == entry.paddr {
        assert after[page].paddr == p;
      } else {
        var v :| v in m && m[v].paddr == p;
        assert after[v].paddr == p;
      }
    }
  }

  lemma PhysicalRemove(m: map<nat, VirtualPage>, page: nat)
    requires page in m && Injective(m)
    ensures Physical(m - {page}) == Physical(m) - {m[page].paddr}
    ensures |m - {page}| == |m| - 1
  {
    var after := m - {page};
    assert after[page := m[page]] == m;
    PhysicalInsert(after, page, m[page]);
  }

  lemma UnmapPartition(s: Pages, total: nat, vaddr: nat)
    requires Partition(s, total)
    ensures Partition(UnmapPage(s, vaddr).0, total)
  {
    hide PageOf, IsFrame;
    var page := PageOf(vaddr);
    if page in s.mappings {
      PhysicalRemove(s.mappings, page);
      assert s.mappings[page].paddr in Physical(s.mappings);
    }
  }

  lemma ProtectPartition(s: Pages, total: nat, vaddr: nat, protection: Protection)
    requires Partition(s, total)
    ensures Partition(ProtectPage(s, vaddr, protection).0, total)
  {
    hide PageOf, IsFrame;
    var page := PageOf(vaddr);
    if page in s.mappings {
      var after := ProtectPage(s, vaddr, protection).0;
      assert forall v :: v in s.mappings ==> after.mappings[v].paddr == s.mappings[v].paddr;
      assert Physical(after.mappings) == Physical(s.mappings);
    }
  }

  lemma {:induction false} CleanupPartition(s: Pages, total: nat, addresses: seq<nat>)
    requires Partition(s, total)
    ensures Partition(Cleanup(s, addresses), total)
    decreases |addresses|
  {
    hide Partition, UnmapPage;
    if addresses != [] {
      UnmapPartition(s, total, addresses[0]);
      CleanupPartition(UnmapPage(s, addresses[0]).0, total, addresses[1..]);
    }
  }

  lemma {:induction false} MapAllPartition(s: Pages, total: nat, pages: seq<nat>, protection: Protection, done: seq<nat>)
    requires Partition(s, total)
    ensures Partition(MapAll(s, pages, protection, done).0, total)
    decreases |pages|
  {
    hide Partition, MapPage;
    if pages != [] {
      MapPartition(s, total, pages[0], protection);
      var (next, paddr) := MapPage(s, pages[0], protection);
      if paddr.Ok? {
        MapAllPartition(next, total, pages[1..], protection, done + [paddr.value]);
      } else {
        CleanupPartition(next, total, done);
      }
    }
  }

  /** In every reachable state the free and the mapped pages partition physical memory, without repetition. */
  lemma {:induction false} RunPartition(total: nat, steps: seq<Step>)
    ensures Partition(Run(Start(total), steps), total)
    decreases |steps|
  {
    hide Partition, MapPage, UnmapPage, ProtectPage, Start, RangePages;
    if steps == [] {
      StartPartition(total);
    } else {
      var before, step := Run(Start(total), steps[..|steps| - 1]), steps[|steps| - 1];
      RunPartition(total, steps[..|steps| - 1]);
      match step {
        case Map(vaddr, protection) => MapPartition(before, total, vaddr, protection);
        case Unmap(vaddr) => UnmapPartition(before, total, vaddr);
        case Protect(vaddr, protection) => ProtectPartition(before, total, vaddr, protection);
        case Range(vaddr, size, protection) =>
          MapAllPartition(before, total, RangePages(vaddr, size), protection, []);
      }
    }
  }

  // ---------------------------------------------------------------------
  // What each step does

  /** Every mapping but that of `page` is as it was. */
  ghost predicate OthersKept(s: Pages, s': Pages, page: nat) {
    forall v :: v != page ==> (v in s'.mappings <==> v in s.mappings) && (v in s.mappings ==> s'.mappings[v] == s.mappings[v])
  }

  /**
   Theorem: mapping a page succeeds exactly when it is not mapped and fewer
   pages are mapped than there are frames; it then has a frame that no page had,
   and unmapping it leads back to the state before.
   */
  lemma MapExactly(s: Pages, total: nat, vaddr: nat, protection: Protection)
    requires Partition(s, total)
    ensures var page := PageOf(vaddr);
            var (s', r) := MapPage(s, vaddr, protection);
            && (r.Ok? <==> page !in s.mappings && |s.mappings| < total)
            && (r.Err? ==> s' == s && r.error == if page in s.mappings then InvalidAddress else AllocationFailed)
            && (r.Ok? ==>
                  && IsFrame(r.value, total) && r.value !in Physical(s.mappings)
                  && OthersKept(s, s', page) && page in s'.mappings
                  && s'.mappings[page] == VirtualPage(page, r.value, protection)
                  && UnmapPage(s', vaddr) == (s, Ok(())))
  {
    hide PageOf, IsFrame, Physical, Distinct, Injective;
    var page := PageOf(vaddr);
    var (s', r) := MapPage(s, vaddr, protection);
    if r.Ok? {
      assert s.free[|s.free| - 1] in s.free;
      assert s'.mappings - {page} == s.mappings;
      assert s'.free + [r.value] == s.free;
    }
  }

  /**
   Theorem: unmapping succeeds exactly on mapped pages; the page is gone, every
   other mapping stays, and its frame is the next one to be handed out.
   */
  lemma UnmapExactly(s: Pages, vaddr: nat, next: nat, protection: Protection)
    ensures var page := PageOf(vaddr);
            var (s', r) := UnmapPage(s, vaddr);
            && (r.Ok? <==> page in s.mappings)
            && (r.Err? ==> s' == s && r.error == InvalidAddress)
            && (r.Ok? ==>
                  && page !in s'.mappings && OthersKept(s, s', page)
                  && (PageOf(next) !in s'.mappings ==>
                        && MapPage(s', next, protection).1 == Ok(s.mappings[page].paddr)
                        && MapPage(s', next, protection).0.free == s.free))
  {
    hide PageOf;
    var page := PageOf(vaddr);
    var (s', r) := UnmapPage(s, vaddr);
    if r.Ok? {
      assert s'.free[..|s'.free| - 1] == s.free;
    }
  }

  /** Theorem: protecting succeeds exactly on mapped pages and changes the protection of that page, nothing else. */
  lemma ProtectExactly(s: Pages, total: nat, vaddr: nat, protection: Protection)
    requires Partition(s, total)
    ensures var page := PageOf(vaddr);
            var (s', r) := ProtectPage(s, vaddr, protection);
            && (r.Ok? <==> page in s.mappings)
            && (r.Err? ==> s' == s && r.error == InvalidAddress)
            && (r.Ok? ==>
                  && OthersKept(s, s', page) && s'.free == s.free && page in s'.mappings
                  && s'.mappings[page] == VirtualPage(page, s.mappings[page].paddr, protection))
  {
    hide PageOf;
  }

  // ---------------------------------------------------------------------
  // What a successful map_range maps

  /** Pages that hold the addresses of a range, were they not to wrap. */
  function TrueCount(vaddr: u64, size: u64): (n: nat) {
    (vaddr - PageOf(vaddr) + size + PAGE_SIZE - 1) / PAGE_SIZE
  }

  lemma Remainder(q: nat, z: nat)
    requires z < WORD_LIMIT
    ensures (WORD_LIMIT * q + z) % WORD_LIMIT == z
  {
  }

  /** Rounding up to a page, modulo the address space. */
  lemma RoundUp(x: nat)
    ensures PageOf((x % WORD_LIMIT + PAGE_SIZE - 1) % WORD_LIMIT) == PAGE_SIZE * ((x + PAGE_SIZE - 1) / PAGE_SIZE % PAGES)
  {
    var y := x + PAGE_SIZE - 1;
    var q, r := y / WORD_LIMIT, y % WORD_LIMIT;
    var k, z := x / WORD_LIMIT, x % WORD_LIMIT;
    assert (z + PAGE_SIZE - 1) % WORD_LIMIT == r by {
      assert y == WORD_LIMIT * k + (z + PAGE_SIZE - 1);
    }
    assert y / PAGE_SIZE == PAGES * q + r / PAGE_SIZE;
    PageRemainder(q, r / PAGE_SIZE);
  }

  lemma PageRemainder(q: nat, z: nat)
    requires z < PAGES
    ensures (PAGES * q + z) % PAGES == z
  {
  }

  lemma Difference(a: nat, m: nat)
    requires a < PAGES
    ensures (PAGE_SIZE * ((a + m) % PAGES) + WORD_LIMIT - PAGE_SIZE * a) % WORD_LIMIT / PAGE_SIZE == m % PAGES
  {
    var q, z := m / PAGES, m % PAGES;
    var x := PAGE_SIZE * ((a + m) % PAGES) + WORD_LIMIT - PAGE_SIZE * a;
    if a + z < PAGES {
      PageRemainder(q, a + z);
      assert a + m == PAGES * q + (a + z);
      assert x == WORD_LIMIT * 1 + PAGE_SIZE * z;
      Remainder(1, PAGE_SIZE * z);
    } else {
      PageRemainder(q + 1, a + z - PAGES);
      assert a + m == PAGES * (q + 1) + (a + z - PAGES);
      assert x == WORD_LIMIT * 0 + PAGE_SIZE * z;
      Remainder(0, PAGE_SIZE * z);
    }
  }

  /** The page count keeps its low 52 bits. */
  lemma CountWraps(vaddr: u64, size: u64)
    ensures PageCount(vaddr, size) == TrueCount(vaddr, size) % PAGES
  {
    var a := vaddr / PAGE_SIZE;
    RoundUp(vaddr + size);
    assert (vaddr + size + PAGE_SIZE - 1) / PAGE_SIZE == a + TrueCount(vaddr, size);
    Difference(a, TrueCount(vaddr, size));
  }

  /** Whether a page holds an address of the range, whose addresses start over at zero; an unaligned empty range counts its page. */
  predicate Meets(vaddr: u64, size: u64, p: nat) {
    && p % PAGE_SIZE == 0 && p < WORD_LIMIT
    && (Overlaps(vaddr, size, p) || Overlaps(vaddr, size, p + WORD_LIMIT))
  }

  predicate Overlaps(vaddr: u64, size: u64, p: nat) {
    p < vaddr + size && vaddr < p + PAGE_SIZE
  }

  /** Between page boundaries, comparing pages is comparing addresses. */
  lemma Boundaries(a: nat, b: nat, c: nat, vaddr: nat, limit: nat)
    requires PAGE_SIZE * a <= vaddr < PAGE_SIZE * (a + 1) && PAGE_SIZE * (c - 1) < limit <= PAGE_SIZE * c
    ensures a <= b < c <==> PAGE_SIZE * b < limit && vaddr < PAGE_SIZE * (b + 1)
  {
  }

  lemma TrueBounds(vaddr: u64, size: u64)
    ensures var c := vaddr / PAGE_SIZE + TrueCount(vaddr, size);
            PAGE_SIZE * (c - 1) < vaddr + size <= PAGE_SIZE * c
    ensures TrueCount(vaddr, size) < PAGES <==> vaddr % PAGE_SIZE + size <= WORD_LIMIT - PAGE_SIZE
    ensures TrueCount(vaddr, size) <= PAGES + 1
  {
  }

  lemma MeetsPage(vaddr: u64, size: u64, b: nat)
    requires b < PAGES
    ensures var a, c := vaddr / PAGE_SIZE, vaddr / PAGE_SIZE + TrueCount(vaddr, size);
            Meets(vaddr, size, PAGE_SIZE * b) <==> a <= b < c || a <= b + PAGES < c
  {
    hide PageOf, TrueCount;
    TrueBounds(vaddr, size);
    var a, c := vaddr / PAGE_SIZE, vaddr / PAGE_SIZE + TrueCount(vaddr, size);
    Boundaries(a, b, c, vaddr, vaddr + size);
    Boundaries(a, b + PAGES, c, vaddr, vaddr + size);
  }

  lemma PageNumber(a: nat, i: nat)
    requires a < PAGES && i < PAGES
    ensures (PAGE_SIZE * a + PAGE_SIZE * i) % WORD_LIMIT == PAGE_SIZE * (if a + i < PAGES then a + i else a + i - PAGES)
  {
    if a + i < PAGES {
      Remainder(0, PAGE_SIZE * (a + i));
    } else {
      Remainder(1, PAGE_SIZE * (a + i - PAGES));
    }
  }

  lemma PageMember(a: nat, count: nat, p: nat)
    requires a < PAGES && count <= PAGES
    ensures p in PagesFrom(PAGE_SIZE * a, count) <==>
              p % PAGE_SIZE == 0 && p < WORD_LIMIT
              && (a <= p / PAGE_SIZE < a + count || a <= p / PAGE_SIZE + PAGES < a + count)
  {
    var pages := PagesFrom(PAGE_SIZE * a, count);
    if p in pages {
      var i :| 0 <= i < count && pages[i] == p;
      PageNumber(a, i);
    }
    if p % PAGE_SIZE == 0 && p < WORD_LIMIT {
      var b := p / PAGE_SIZE;
      if a <= b < a + count {
        PageNumber(a, b - a);
        assert pages[b - a] == p;
      }
      if a <= b + PAGES < a + count {
        PageNumber(a, b + PAGES - a);
        assert pages[b + PAGES - a] == p;
      }
    }
  }

  /** Short of the whole address space, the pages gone through are exactly those that meet the range. */
  lemma RangeCovers(vaddr: u64, size: u64, p: nat)
    requires vaddr % PAGE_SIZE + size <= WORD_LIMIT - PAGE_SIZE
    ensures p in RangePages(vaddr, size) <==> Meets(vaddr, size, p)
  {
    hide PagesFrom, TrueCount, PageCount, Overlaps;
    var a := vaddr / PAGE_SIZE;
    CountWraps(vaddr, size);
    TrueBounds(vaddr, size);
    PageMember(a, PageCount(vaddr, size), p);
    if p % PAGE_SIZE == 0 && p < WORD_LIMIT {
      MeetsPage(vaddr, size, p / PAGE_SIZE);
    }
  }

  /** Otherwise some page that meets the range is not gone through. */
  lemma RangeMisses(vaddr: u64, size: u64) returns (p: nat)
    requires vaddr % PAGE_SIZE + size > WORD_LIMIT - PAGE_SIZE
    ensures Meets(vaddr, size, p) && p !in RangePages(vaddr, size)
  {
    hide PagesFrom, TrueCount, PageCount, Overlaps, Meets;
    var a := vaddr / PAGE_SIZE;
    CountWraps(vaddr, size);
    TrueBounds(vaddr, size);
    var m := TrueCount(vaddr, size);
    var b := if m == PAGES then a else if a + 1 < PAGES then a + 1 else 0;
    p := PAGE_SIZE * b;
    PageRemainder(1, m - PAGES);
    PageMember(a, PageCount(vaddr, size), p);
    MeetsPage(vaddr, size, b);
  }

  /** `after` adds to `before` exactly the given pages, each on its frame. */
  ghost predicate Adds(
      before: map<nat, VirtualPage>, after: map<nat, VirtualPage>, pages: seq<nat>, frames: seq<nat>, protection: Protection)
  {
    && |frames| == |pages|
    && (forall v :: v in after <==> v in before || v in pages)
    && (forall v :: v in before ==> v !in pages && after[v] == before[v])
    && (forall i :: 0 <= i < |pages| ==> after[pages[i]] == VirtualPage(pages[i], frames[i], protection))
  }

  lemma AddsStep(
      before: map<nat, VirtualPage>, after: map<nat, VirtualPage>, pages: seq<nat>, frames: seq<nat>, protection: Protection)
    requires |pages| == |frames| > 0 && pages[0] !in before
    requires Adds(before[pages[0] := VirtualPage(pages[0], frames[0], protection)], after, pages[1..], frames[1..], protection)
    ensures Adds(before, after, pages, frames, protection)
  {
    var rest, restFrames := pages[1..], frames[1..];
    assert pages == [pages[0]] + rest;
    forall i | 0 <= i < |pages|
      ensures after[pages[i]] == VirtualPage(pages[i], frames[i], protection)
    {
      if i > 0 {
        assert pages[i] == rest[i - 1] && frames[i] == restFrames[i - 1];
      }
    }
  }

  /** A successful loop has mapped each page to the frame it returned, and changed no other mapping. */
  lemma {:induction false} MapAllMaps(s: Pages, pages: seq<nat>, protection: Protection, done: seq<nat>)
    requires forall i :: 0 <= i < |pages| ==> PageOf(pages[i]) == pages[i]
    ensures var (after, r) := MapAll(s, pages, protection, done);
            r.Ok? ==> done <= r.value && Adds(s.mappings, after.mappings, pages, r.value[|done|..], protection)
    decreases |pages|
  {
    hide PageOf;
    var (after, r) := MapAll(s, pages, protection, done);
    if pages != [] && r.Ok? {
      hide Adds;
      var (next, paddr) := MapPage(s, pages[0], protection);
      MapAllMaps(next, pages[1..], protection, done + [paddr.value]);
      var frames := r.value[|done|..];
      assert frames[1..] == r.value[|done| + 1..];
      assert r.value[|done|] == paddr.value;
      AddsLength(next.mappings, after.mappings, pages[1..], frames[1..], protection);
      AddsStep(s.mappings, after.mappings, pages, frames, protection);
    }
  }

  lemma AddsLength(
      before: map<nat, VirtualPage>, after: map<nat, VirtualPage>, pages: seq<nat>, frames: seq<nat>, protection: Protection)
    requires Adds(before, after, pages, frames, protection)
    ensures |frames| == |pages|
  {
  }

  /** A successful map_range adds the pages it went through, none of which was mapped before. */
  lemma RangeMapsPages(s: Pages, vaddr: u64, size: u64, protection: Protection)
    ensures var (after, r) := MapRange(s, vaddr, size, protection);
            r.Ok? ==> Adds(s.mappings, after.mappings, RangePages(vaddr, size), r.value, protection)
  {
    hide MapAll, PageCount, Adds;
    var pages := RangePages(vaddr, size);
    AllPages(PageOf(vaddr), |pages|);
    MapAllMaps(s, pages, protection, []);
    var (after, r) := MapRange(s, vaddr, size, protection);
    if r.Ok? {
      assert r.value[0..] == r.value;
    }
  }

  /**
   Theorem: a successful map_range has mapped exactly the pages that meet the
   range if and only if the range, counted from the start of its first page,
   leaves at least a page of the address space.
   */
  lemma RangeMapsCovering(s: Pages, vaddr: u64, size: u64, protection: Protection)
    ensures var (after, r) := MapRange(s, vaddr, size, protection);
            r.Ok? ==>
              ((forall v :: v in after.mappings && v !in s.mappings <==> Meets(vaddr, size, v))
               <==> vaddr % PAGE_SIZE + size <= WORD_LIMIT - PAGE_SIZE)
  {
    hide MapRange, RangePages, Meets;
    var (after, r) := MapRange(s, vaddr, size, protection);
    RangeMapsPages(s, vaddr, size, protection);
    if vaddr % PAGE_SIZE + size <= WORD_LIMIT - PAGE_SIZE {
      forall p: nat
        ensures p in RangePages(vaddr, size) <==> Meets(vaddr, size, p)
      {
        RangeCovers(vaddr, size, p);
      }
    } else {
      var p := RangeMisses(vaddr, size);
    }
  }

  /** The largest range from address zero succeeds and maps nothing. */
  lemma WholeSpaceMapsNothing(s: Pages, protection: Protection)
    ensures MapRange(s, 0, WORD_LIMIT - 1, protection) == (s, Ok([]))
    ensures Meets(0, WORD_LIMIT - 1, 0)
  {
    assert PageCount(0, WORD_LIMIT - 1) == 0;
  }

  lemma AllPages(start: nat, count: nat)
    requires start % PAGE_SIZE == 0
    ensures forall i :: 0 <= i < count ==> PageOf(PagesFrom(start, count)[i]) == PagesFrom(start, count)[i]
  {
    var pages := PagesFrom(start, count);
    forall i | 0 <= i < count
      ensures PageOf(pages[i]) == pages[i]
    {
      AlignedWrap(start / PAGE_SIZE + i);
    }
  }

  lemma AlignedWrap(k: nat)
    ensures PageOf(PAGE_SIZE * k % WORD_LIMIT) == PAGE_SIZE * k % WORD_LIMIT
  {
    var q, z := k / PAGES, k % PAGES;
    assert PAGE_SIZE * k == WORD_LIMIT * q + PAGE_SIZE * z;
    Remainder(q, PAGE_SIZE * z);
  }

  // ---------------------------------------------------------------------
  // What a failed map_range leaves behind

  /** The frames that the next `k` mappings get. */
  function NextFrames(free: seq<nat>, k: nat): (frames: seq<nat>)
    requires k <= |free|
    ensures |frames| == k && forall i :: 0 <= i < k ==> frames[i] == free[|free| - 1 - i]
  {
    seq(k, i requires 0 <= i < k => free[|free| - 1 - i])
  }

  /** The cleanup takes away the mappings at the given addresses, and no other. */
  lemma {:induction false} CleanupExactly(s: Pages, addresses: seq<nat>, v: nat)
    requires forall i :: 0 <= i < |addresses| ==> PageOf(addresses[i]) == addresses[i]
    ensures var after := Cleanup(s, addresses).mappings;
            && (v in after <==> v in s.mappings && v !in addresses)
            && (v in after ==> after[v] == s.mappings[v])
    decreases |addresses|
  {
    hide PageOf;
    if addresses != [] {
      CleanupExactly(UnmapPage(s, addresses[0]).0, addresses[1..], v);
      assert addresses == [addresses[0]] + addresses[1..];
    }
  }

  /** A loop that fails has mapped the first `k` pages, and is cleaned up after from there. */
  lemma {:induction false} MapAllFails(s: Pages, pages: seq<nat>, protection: Protection, done: seq<nat>)
    returns (k: nat, mid: Pages)
    requires forall i :: 0 <= i < |pages| ==> PageOf(pages[i]) == pages[i]
    requires MapAll(s, pages, protection, done).1.Err?
    ensures k < |pages| && k <= |s.free|
    ensures Adds(s.mappings, mid.mappings, pages[..k], NextFrames(s.free, k), protection)
    ensures pages[k] in mid.mappings || k == |s.free|
    ensures MapAll(s, pages, protection, done).0 == Cleanup(mid, done + NextFrames(s.free, k))
    decreases |pages|
  {
    hide PageOf, Cleanup, Adds, NextFrames;
    var (next, paddr) := MapPage(s, pages[0], protection);
    if paddr.Err? {
      k, mid := 0, s;
      AddsNone(s, pages, protection);
      assert done + [] == done;
    } else {
      var j, m := MapAllFails(next, pages[1..], protection, done + [paddr.value]);
      k, mid := j + 1, m;
      NextFramesStep(s.free, j);
      var frames := NextFrames(s.free, k);
      assert frames[1..] == NextFrames(next.free, j);
      assert pages[..k][1..] == pages[1..][..j];
      AddsStep(s.mappings, mid.mappings, pages[..k], frames, protection);
      assert done + [paddr.value] + NextFrames(next.free, j) == done + frames;
    }
  }

  lemma AddsNone(s: Pages, pages: seq<nat>, protection: Protection)
    ensures pages[..0] == [] && NextFrames(s.free, 0) == []
    ensures Adds(s.mappings, s.mappings, [], [], protection)
  {
  }

  lemma NextFramesStep(free: seq<nat>, k: nat)
    requires k < |free|
    ensures NextFrames(free, k + 1) == [free[|free| - 1]] + NextFrames(free[..|free| - 1], k)
  {
  }

  /**
   Theorem: a failed map_range has mapped its first `k` pages, up to one that was
   mapped or until the frames ran out, and has then unmapped the addresses of
   their frames. It leaves the mappings as they were if and only if every page
   it mapped is the address of one of those frames, and none of them is that of
   a page mapped before.
   */
  lemma RangeFails(s: Pages, total: nat, vaddr: u64, size: u64, protection: Protection) returns (k: nat)
    requires Partition(s, total) && MapRange(s, vaddr, size, protection).1.Err?
    ensures k < |RangePages(vaddr, size)| && k <= |s.free|
    ensures var pages := RangePages(vaddr, size);
            k == |s.free| || pages[k] in s.mappings || pages[k] in pages[..k]
    ensures var after := MapRange(s, vaddr, size, protection).0.mappings;
            var pages, frames := RangePages(vaddr, size)[..k], NextFrames(s.free, k);
            && (forall v :: v in after <==> (v in s.mappings || v in pages) && v !in frames)
            && (forall v :: v in after && v in s.mappings ==> after[v] == s.mappings[v])
            && (after == s.mappings <==>
                  (forall v :: v in pages ==> v in frames) && (forall v :: v in frames ==> v !in s.mappings))
  {
    hide MapAll, PageCount, Cleanup, IsFrame, Physical;
    var all := RangePages(vaddr, size);
    AllPages(PageOf(vaddr), |all|);
    var mid;
    k, mid := MapAllFails(s, all, protection, []);
    var pages, frames := all[..k], NextFrames(s.free, k);
    assert [] + frames == frames;
    var after := MapRange(s, vaddr, size, protection).0.mappings;
    FramesAligned(s, total, k);
    forall v: nat
      ensures v in after <==> (v in s.mappings || v in pages) && v !in frames
      ensures v in after && v in s.mappings ==> after[v] == s.mappings[v]
    {
      hide PageOf;
      CleanupExactly(mid, frames, v);
    }
    SameWhenAlike(s, pages, frames, after);
  }

  lemma FramesAligned(s: Pages, total: nat, k: nat)
    requires Partition(s, total) && k <= |s.free|
    ensures forall i :: 0 <= i < k ==> PageOf(NextFrames(s.free, k)[i]) == NextFrames(s.free, k)[i]
  {
    hide Physical, Distinct, Injective;
    var frames := NextFrames(s.free, k);
    forall i | 0 <= i < k
      ensures PageOf(frames[i]) == frames[i]
    {
      assert s.free[|s.free| - 1 - i] in s.free;
      assert IsFrame(frames[i], total);
    }
  }

  lemma SameWhenAlike(s: Pages, pages: seq<nat>, frames: seq<nat>, after: map<nat, VirtualPage>)
    requires forall v :: v in s.mappings ==> v !in pages
    requires forall v :: v in after <==> (v in s.mappings || v in pages) && v !in frames
    requires forall v :: v in after && v in s.mappings ==> after[v] == s.mappings[v]
    ensures after == s.mappings <==>
              (forall v :: v in pages ==> v in frames) && (forall v :: v in frames ==> v !in s.mappings)
  {
    if (forall v :: v in pages ==> v in frames) && (forall v :: v in frames ==> v !in s.mappings) {
      assert after.Keys == s.mappings.Keys;
    }
  }

  /** So with one frame, mapping two pages fails and leaves the first one mapped. */
  lemma FailedRangeLeaks(protection: Protection)
    ensures MapRange(Start(1), 4096, 8192, protection)
         == (Pages(map[4096 := VirtualPage(4096, 0, protection)], []), Err(AllocationFailed))
  {
    assert PageCount(4096, 8192) == 2;
    assert RangePages(4096, 8192) == [4096, 8192];
    assert PageOf(4096) == 4096 && PageOf(8192) == 8192 && PageOf(0) == 0;
    var s := MapPage(Start(1), 4096, protection).0;
    assert s == Pages(map[4096 := VirtualPage(4096, 0, protection)], []);
    assert MapPage(s, 8192, protection) == (s, Err(AllocationFailed));
    assert [] + [0] == [0];
    OneUnmapped(s);
    assert [4096, 8192][1..] == [8192];
    assert MapAll(s, [8192], protection, [0]) == (s, Err(AllocationFailed));
  }

  lemma OneUnmapped(s: Pages)
    requires 0 !in s.mappings
    ensures Cleanup(s, [0]) == s
  {
    assert PageOf(0) == 0;
    assert [0][1..] == [];
  }
}
