// The driver's DMA pool (kernel/mxc_vpu.c): a few 4 MB blocks with one bit per
// page, the list of buffers user space holds, and the work buffer.
module DmaPool {

  const PAGE_SIZE := 4096
  const BLOCK_PAGES := 1024
  const MAX_BLOCKS := 3
  const WORD := 0x1_0000_0000
  const ENOMEM := 12
  const EFAULT := 14

  type u32 = x: int | 0 <= x < WORD

  // A vpu_mem_desc that has been given memory; its cpu_addr repeats the address.
  datatype Desc = Desc(size: u32, addr: nat)

  // PAGE_ALIGN(size) >> PAGE_SHIFT in 32-bit arithmetic.
  function Pages(size: u32): (n: nat)
    ensures n <= 0x10_0000
  {
    (size + PAGE_SIZE - 1) % WORD / PAGE_SIZE
  }

  // The least number of pages that hold the bytes, unless that is none or the sum
  // wraps around.
  lemma PagesHold(size: u32)
    ensures Pages(size) == 0 <==> size == 0 || size > WORD - PAGE_SIZE
    ensures 0 < size <= WORD - PAGE_SIZE ==> size <= Pages(size) * PAGE_SIZE < size + PAGE_SIZE
  {
    var up := size + PAGE_SIZE - 1;
    if up < WORD {
      assert up == PAGE_SIZE * (up / PAGE_SIZE) + up % PAGE_SIZE;
    } else {
      assert up % WORD == up - WORD;
    }
  }

  function Bytes(d: Desc): (n: nat)
    ensures n % PAGE_SIZE == 0
  {
    Pages(d.size) * PAGE_SIZE
  }

  // No byte in common.
  predicate Apart(x: Desc, y: Desc) {
    x.addr + Bytes(x) <= y.addr || y.addr + Bytes(y) <= x.addr
  }

  class Pool {
    const phys: seq<nat>            // where the blocks are; page_to_phys at module init
    const bits: array2<bool>        // vpu_pool[i].bitmap
    var records: seq<Desc>          // the memalloc_record list
    var work: seq<Desc>             // bitwork_mem: nothing, or the one work buffer
    var openCount: nat
    ghost var leaked: set<Desc>     // marked, but in nobody's list

    // ----- What is where -----

    ghost predicate Blocks() {
      && |phys| <= MAX_BLOCKS && bits.Length0 == |phys| && bits.Length1 == BLOCK_PAGES
      && (forall i :: 0 <= i < |phys| ==>
            0 < phys[i] && phys[i] % PAGE_SIZE == 0 && phys[i] + BLOCK_PAGES * PAGE_SIZE <= WORD)
      && (forall i, j :: 0 <= i < j < |phys| ==>
            phys[i] + BLOCK_PAGES * PAGE_SIZE <= phys[j] || phys[j] + BLOCK_PAGES * PAGE_SIZE <= phys[i])
    }

    // d lies at page p of block i, wholly inside that block.
    ghost predicate At(d: Desc, i: nat, p: nat) {
      i < |phys| && d.addr == phys[i] + p * PAGE_SIZE && 1 <= Pages(d.size) && p + Pages(d.size) <= BLOCK_PAGES
    }

    ghost predicate InPool(d: Desc) {
      exists i: nat, p: nat :: At(d, i, p)
    }

    // Page p of block i belongs to d.
    ghost predicate Covers(d: Desc, i: nat, p: nat)
      requires i < |phys|
    {
      d.addr <= phys[i] + p * PAGE_SIZE < d.addr + Bytes(d)
    }

    ghost function Owners(): set<Desc>
      reads this
    {
      (set d | d in records) + (set d | d in work) + leaked
    }

    ghost predicate Marked(owners: set<Desc>)
      requires Blocks()
      reads bits
    {
      forall i, p :: 0 <= i < |phys| && 0 <= p < BLOCK_PAGES ==>
        (bits[i, p] <==> exists d :: d in owners && Covers(d, i, p))
    }

    ghost predicate Sound(owners: set<Desc>)
      requires Blocks()
      reads bits
    {
      && (forall d :: d in owners ==> InPool(d))
      && (forall x, y :: x in owners && y in owners && x != y ==> Apart(x, y))
      && Marked(owners)
    }

    ghost predicate Listed()
      reads this
    {
      && |work| <= 1
      && (forall j, k :: 0 <= j < k < |records| ==> records[j] != records[k])
      && (forall d :: d in records ==> d !in work && d !in leaked)
      && (forall d :: d in work ==> d !in leaked)
    }

    // Live buffers are page-aligned, inside one block and pairwise disjoint, and a
    // page is marked exactly when it belongs to one of them.
    ghost predicate Valid()
      reads this, bits
    {
      Blocks() && Listed() && Sound(Owners())
    }

    // The bytes that were asked for lie inside one block, and in no other buffer.
    ghost predicate Separate()
      reads this
    {
      && (forall d :: d in Owners() ==> d.size > 0 && exists i :: Inside(d, i))
      && (forall x, y :: x in Owners() && y in Owners() && x != y ==> x.addr + x.size <= y.addr || y.addr + y.size <= x.addr)
    }

    ghost predicate Inside(d: Desc, i: int) {
      0 <= i < |phys| && phys[i] <= d.addr && d.addr + d.size <= phys[i] + BLOCK_PAGES * PAGE_SIZE
    }

    lemma HoldsAll()
      requires Valid()
      ensures Separate()
    {
      hide Owners, Pages;
      forall d | d in Owners()
        ensures 0 < d.size <= Bytes(d) && exists i :: Inside(d, i)
      {
        assert InPool(d);
        var i: nat, p: nat :| At(d, i, p);
        PagesHold(d.size);
        assert Inside(d, i);
      }
      forall x, y | x in Owners() && y in Owners() && x != y
        ensures x.addr + x.size <= y.addr || y.addr + y.size <= x.addr
      {
        assert Apart(x, y);
      }
    }

    ghost predicate FreeRun(i: nat, p: nat, n: nat)
      requires Blocks() && i < |phys| && p + n <= BLOCK_PAGES
      reads bits
    {
      forall q :: p <= q < p + n ==> !bits[i, q]
    }

    // Some block has n free pages in a row.
    ghost predicate RoomFor(n: nat)
      requires Blocks()
      reads bits
    {
      exists i, p :: 0 <= i < |phys| && 0 <= p && p + n <= BLOCK_PAGES && FreeRun(i, p, n)
    }

    // The lowest run of n free pages of the first block that has one.
    ghost predicate Lowest(i: nat, p: nat, n: nat)
      requires Blocks()
      reads bits
    {
      && i < |phys| && p + n <= BLOCK_PAGES && FreeRun(i, p, n)
      && (forall q :: 0 <= q < p ==> !FreeRun(i, q, n))
      && (forall j, q :: 0 <= j < i && 0 <= q && q + n <= BLOCK_PAGES ==> !FreeRun(j, q, n))
    }

    // ----- Geometry -----

    lemma CoversAt(d: Desc, i: nat, p: nat, j: nat, q: nat)
      requires Blocks() && At(d, i, p) && j < |phys| && q < BLOCK_PAGES
      ensures Covers(d, j, q) <==> j == i && p <= q < p + Pages(d.size)
    {
    }

    // A buffer on pages that nobody owns is apart from every owner.
    lemma FreshIsApart(d: Desc, i: nat, p: nat, y: Desc, owners: set<Desc>)
      requires Blocks() && At(d, i, p) && Marked(owners) && y in owners && InPool(y) && FreeRun(i, p, Pages(d.size))
      ensures Apart(d, y)
    {
      var j: nat, q: nat :| At(y, j, q);
      if j == i {
        var r := if p <= q then q else p;
        if r < q + Pages(y.size) {
          CoversAt(y, j, q, i, r);
          assert bits[i, r];
        }
      }
    }

    lemma ApartCovers(x: Desc, y: Desc, i: nat, p: nat)
      requires i < |phys| && Apart(x, y) && Covers(x, i, p)
      ensures !Covers(y, i, p)
    {
    }

    // An address tells its owner.
    lemma SameAddr(x: Desc, y: Desc)
      requires Valid() && x in Owners() && y in Owners() && x.addr == y.addr
      ensures x == y
    {
      assert InPool(x) && InPool(y);
    }

    lemma OwnsItself(d: Desc, i: nat, p: nat)
      requires Blocks() && At(d, i, p)
      ensures Covers(d, i, p)
    {
      CoversAt(d, i, p, i, p);
    }

    // ----- The page allocator -----

    constructor (phys: seq<nat>)
      requires |phys| <= MAX_BLOCKS
      requires forall i :: 0 <= i < |phys| ==>
                 0 < phys[i] && phys[i] % PAGE_SIZE == 0 && phys[i] + BLOCK_PAGES * PAGE_SIZE <= WORD
      requires forall i, j :: 0 <= i < j < |phys| ==>
                 phys[i] + BLOCK_PAGES * PAGE_SIZE <= phys[j] || phys[j] + BLOCK_PAGES * PAGE_SIZE <= phys[i]
      ensures Valid() && records == [] && work == [] && leaked == {} && this.phys == phys && openCount == 0 && fresh(bits)
    {
      this.phys := phys;
      bits := new bool[|phys|, BLOCK_PAGES]((i, p) => false);
      records, work, openCount, leaked := [], [], 0, {};
    }

    // find_next_zero_bit and find_next_bit: the first page from `from` below `to`
    // whose bit is `b`, or `to`.
    method FindNext(i: nat, from: nat, to: nat, b: bool) returns (p: nat)
      requires Blocks() && i < |phys| && from <= to <= BLOCK_PAGES
      ensures from <= p <= to && (p < to ==> bits[i, p] == b)
      ensures forall q :: from <= q < p ==> bits[i, q] != b
    {
      p := from;
      while p < to && bits[i, p] != b
        invariant from <= p <= to
        invariant forall q :: from <= q < p ==> bits[i, q] != b
      {
        p := p + 1;
      }
    }

    // bitmap_find_next_zero_area from page 0: the first run of n free pages, or
    // something past the end.
    method FindArea(i: nat, n: nat) returns (p: nat)
      requires Blocks() && i < |phys| && 1 <= n <= BLOCK_PAGES
      ensures if p < BLOCK_PAGES then p + n <= BLOCK_PAGES && FreeRun(i, p, n)
              else forall q :: 0 <= q && q + n <= BLOCK_PAGES ==> !FreeRun(i, q, n)
      ensures forall q :: 0 <= q < p && q + n <= BLOCK_PAGES ==> !FreeRun(i, q, n)
    {
      p := 0;
      while true
        invariant 0 <= p <= BLOCK_PAGES
        invariant forall q :: 0 <= q < p && q + n <= BLOCK_PAGES ==> !FreeRun(i, q, n)
        decreases BLOCK_PAGES - p
      {
        ghost var from := p;
        p := FindNext(i, p, BLOCK_PAGES, false);
        forall q | from <= q < p && q + n <= BLOCK_PAGES ensures !FreeRun(i, q, n) {
          assert bits[i, q];
        }
        if p + n > BLOCK_PAGES {
          return p + n;
        }
        var used := FindNext(i, p, p + n, true);
        if used >= p + n {
          return;
        }
        forall q | p <= q <= used && q + n <= BLOCK_PAGES ensures !FreeRun(i, q, n) {
          assert q <= used < q + n;
        }
        p := used + 1;
      }
    }

    // bitmap_set and bitmap_clear.
    method SetBits(i: nat, p: nat, n: nat, b: bool)
      requires Blocks() && i < |phys| && p + n <= BLOCK_PAGES
      modifies bits
      ensures forall j, q :: 0 <= j < |phys| && 0 <= q < BLOCK_PAGES ==>
                bits[j, q] == if j == i && p <= q < p + n then b else old(bits[j, q])
    {
      forall q | p <= q < p + n {
        bits[i, q] := b;
      }
    }

    // The search of vpu_pool_alloc: the lowest run of the first block that has one.
    method FirstFit(n: nat) returns (found: bool, i: nat, p: nat)
      requires Blocks() && 1 <= n <= BLOCK_PAGES
      ensures found <==> RoomFor(n)
      ensures found ==> Lowest(i, p, n)
    {
      i, p := 0, 0;
      while i < |phys|
        invariant 0 <= i <= |phys|
        invariant forall j, q :: 0 <= j < i && 0 <= q && q + n <= BLOCK_PAGES ==> !FreeRun(j, q, n)
      {
        p := FindArea(i, n);
        if p < BLOCK_PAGES {
          return true, i, p;
        }
        i := i + 1;
      }
      found := false;
    }

    // vpu_pool_alloc.
    method Take(size: u32) returns (addr: nat)
      requires Valid()
      modifies bits
      ensures addr == 0 <==> Pages(size) == 0 || Pages(size) > BLOCK_PAGES || !old(RoomFor(Pages(size)))
      ensures addr == 0 ==> Sound(Owners())
      ensures addr != 0 ==> exists i: nat, p: nat :: old(Lowest(i, p, Pages(size))) && addr == phys[i] + p * PAGE_SIZE
      ensures addr != 0 ==> Sound(Owners() + {Desc(size, addr)}) && Desc(size, addr) !in Owners()
      ensures addr != 0 ==> 0 < size <= BLOCK_PAGES * PAGE_SIZE && exists i :: Inside(Desc(size, addr), i)
    {
      PagesHold(size);
      var n := Pages(size);
      if n == 0 || n > BLOCK_PAGES {
        return 0;
      }
      var found, i, p := FirstFit(n);
      if !found {
        return 0;
      }
      addr := phys[i] + p * PAGE_SIZE;
      assert Inside(Desc(size, addr), i);
      Claim(Desc(size, addr), i, p);
    }

    // Marking the pages of a buffer that nobody owned.
    method Claim(d: Desc, i: nat, p: nat)
      requires Valid() && At(d, i, p) && FreeRun(i, p, Pages(d.size))
      modifies bits
      ensures Sound(Owners() + {d}) && d !in Owners()
    {
      ghost var owners := Owners();
      forall y | y in owners ensures Apart(d, y) {
        FreshIsApart(d, i, p, y, owners);
      }
      OwnsItself(d, i, p);
      assert !bits[i, p];
      SetBits(i, p, Pages(d.size), true);
      forall j, q | 0 <= j < |phys| && 0 <= q < BLOCK_PAGES
        ensures bits[j, q] <==> exists y :: y in owners + {d} && Covers(y, j, q)
      {
        CoversAt(d, i, p, j, q);
        assert d in owners + {d};
      }
    }

    // Without d's pages the bits are those of the others.
    lemma Unmarked(d: Desc, b: nat, p: nat, owners: set<Desc>, j: nat, q: nat, before: bool)
      requires Blocks() && At(d, b, p) && d in owners && j < |phys| && q < BLOCK_PAGES
      requires forall x, y :: x in owners && y in owners && x != y ==> Apart(x, y)
      requires before <==> exists y :: y in owners && Covers(y, j, q)
      ensures (if j == b && p <= q < p + Pages(d.size) then false else before)
              <==> exists y :: y in owners - {d} && Covers(y, j, q)
    {
      CoversAt(d, b, p, j, q);
      if j == b && p <= q < p + Pages(d.size) {
        forall y | y in owners - {d} ensures !Covers(y, j, q) {
          ApartCovers(d, y, j, q);
        }
      } else if before {
        var y :| y in owners && Covers(y, j, q);
        assert y in owners - {d};
      }
    }

    // The pages that vpu_pool_free unmarks for d: those from its address on, in the
    // block it lies in if any.
    ghost predicate Frees(d: Desc, j: nat, q: nat)
      requires j < |phys|
    {
      && phys[j] <= d.addr < phys[j] + BLOCK_PAGES * PAGE_SIZE
      && (d.addr - phys[j]) / PAGE_SIZE <= q < (d.addr - phys[j]) / PAGE_SIZE + Pages(d.size)
    }

    // d does not run past the end of a block's bitmap.
    ghost predicate Clearable(d: Desc) {
      forall j :: 0 <= j < |phys| && phys[j] <= d.addr < phys[j] + BLOCK_PAGES * PAGE_SIZE ==>
        (d.addr - phys[j]) / PAGE_SIZE + Pages(d.size) <= BLOCK_PAGES
    }

    lemma FreesOwn(d: Desc, b: nat, p: nat, j: nat, q: nat)
      requires Blocks() && At(d, b, p) && j < |phys| && q < BLOCK_PAGES
      ensures Frees(d, j, q) <==> Covers(d, j, q)
    {
      CoversAt(d, b, p, j, q);
    }

    lemma PoolIsClearable(d: Desc)
      requires Blocks() && InPool(d)
      ensures Clearable(d)
    {
      var b: nat, p: nat :| At(d, b, p);
    }

    // vpu_pool_free.
    method PoolFree(d: Desc)
      requires Blocks() && Clearable(d)
      modifies bits
      ensures forall j, q :: 0 <= j < |phys| && 0 <= q < BLOCK_PAGES ==> bits[j, q] == (old(bits[j, q]) && !Frees(d, j, q))
    {
      if d.addr == 0 {
        return;
      }
      var i := 0;
      while i < |phys|
        invariant 0 <= i <= |phys|
        invariant forall j :: 0 <= j < i ==> !(phys[j] <= d.addr < phys[j] + BLOCK_PAGES * PAGE_SIZE)
        invariant forall j, q :: 0 <= j < |phys| && 0 <= q < BLOCK_PAGES ==> bits[j, q] == old(bits[j, q])
      {
        if phys[i] <= d.addr < phys[i] + BLOCK_PAGES * PAGE_SIZE {
          SetBits(i, (d.addr - phys[i]) / PAGE_SIZE, Pages(d.size), false);
          return;
        }
        i := i + 1;
      }
    }

    // vpu_pool_free of a live buffer.
    method Release(d: Desc, ghost owners: set<Desc>)
      requires Blocks() && Sound(owners) && d in owners
      modifies bits
      ensures Sound(owners - {d})
    {
      ghost var b: nat, p: nat :| At(d, b, p);
      PoolIsClearable(d);
      PoolFree(d);
      forall j, q | 0 <= j < |phys| && 0 <= q < BLOCK_PAGES
        ensures bits[j, q] <==> exists y :: y in owners - {d} && Covers(y, j, q)
      {
        FreesOwn(d, b, p, j, q);
        CoversAt(d, b, p, j, q);
        Unmarked(d, b, p, owners, j, q, old(bits[j, q]));
      }
    }

    // ----- The ioctls -----

    // VPU_IOC_PHYMEM_ALLOC.  `memory` and `readable` are whether kzalloc and
    // copy_from_user succeed; when copy_to_user fails, the record is dropped but
    // the pages stay marked.
    method PhymemAlloc(size: u32, memory: bool, readable: bool, writable: bool) returns (rc: int, d: Desc)
      requires Valid()
      modifies this`records, this`leaked, bits
      ensures Valid() && Separate()
      ensures rc == if !memory then -ENOMEM
                    else if !readable then -EFAULT
                    else if !(0 < size <= BLOCK_PAGES * PAGE_SIZE && old(RoomFor(Pages(size)))) then -1
                    else if !writable then -EFAULT
                    else 0
      ensures d.size == size && d !in old(Owners())
      ensures records == (if rc == 0 then [d] else []) + old(records)
      ensures leaked == old(leaked) + if rc == -EFAULT && readable then {d} else {}
    {
      d := Desc(size, 0);
      NotAtZero(d);
      HoldsAll();
      hide Sound, Separate, Pages, RoomFor, FreeRun, Apart;
      PagesHold(size);
      if !memory {
        return -ENOMEM, d;
      }
      if !readable {
        return -EFAULT, d;
      }
      ghost var owners := Owners();
      var addr := Take(size);
      if addr == 0 {
        return -1, d;
      }
      d := Desc(size, addr);
      if !writable {
        leaked := leaked + {d};
        assert Owners() == owners + {d};
        HoldsAll();
        return -EFAULT, d;
      }
      ghost var before := records;
      records := [d] + records;
      assert forall x :: x in records <==> x == d || x in before;
      assert Owners() == owners + {d};
      HoldsAll();
      return 0, d;
    }

    lemma NotAtZero(d: Desc)
      requires Valid() && d.addr == 0
      ensures d !in Owners()
    {
      assert d in Owners() ==> InPool(d);
    }

    // The search of VPU_IOC_PHYMEM_FREE: drop the record with this cpu_addr.
    method Unlist(addr: nat)
      requires Listed() && forall r, s :: r in records && s in records && r.addr == s.addr ==> r == s
      modifies this`records
      ensures forall r :: r in records <==> r in old(records) && r.addr != addr
      ensures (forall r :: r in old(records) ==> r.addr != addr) ==> records == old(records)
      ensures Listed()
    {
      var i := 0;
      while i < |records|
        invariant 0 <= i <= |records| && records == old(records)
        invariant forall j :: 0 <= j < i ==> records[j].addr != addr
      {
        if records[i].addr == addr {
          Without(records, i);
          records := records[..i] + records[i + 1..];
          return;
        }
        i := i + 1;
      }
    }

    // The owners that stay when the record at this address is dropped.
    ghost function Others(addr: nat): set<Desc>
      reads this
    {
      set y | y in Owners() && !(y in records && y.addr == addr)
    }

    ghost function Gone(addr: nat): set<Desc>
      reads this`records
    {
      set y | y in records && y.addr == addr
    }

    lemma StayOrGo(addr: nat)
      ensures Owners() == Others(addr) + Gone(addr) && Others(addr) !! Gone(addr)
    {
    }

    // Dropping the records at an address.
    twostate lemma Stayed(addr: nat)
      requires work == old(work) && leaked == old(leaked) && old(Listed())
      requires forall r :: r in records <==> r in old(records) && r.addr != addr
      ensures Owners() == old(Others(addr))
    {
    }

    // d's pages are kept from all who stay, and none of those who go is left.
    ghost predicate Fair(d: Desc, others: set<Desc>, gone: set<Desc>) {
      forall y, j, q :: (y in others || y in gone) && 0 <= j < |phys| && 0 <= q < BLOCK_PAGES && Covers(y, j, q) ==>
        (Frees(d, j, q) <==> y in gone)
    }

    // Freeing d takes no page from an owner that stays, and leaves no page of the
    // record that goes.
    ghost predicate Harmless(d: Desc)
      reads this
    {
      Fair(d, Others(d.addr), Gone(d.addr))
    }

    // The marked pages.
    ghost function Marks(): set<(int, int)>
      requires Blocks()
      reads bits
    {
      set j, q | 0 <= j < |phys| && 0 <= q < BLOCK_PAGES && bits[j, q] :: (j, q)
    }

    ghost predicate Distinct(owners: set<Desc>) {
      (forall y :: y in owners ==> InPool(y)) && forall x, y :: x in owners && y in owners && x != y ==> Apart(x, y)
    }

    // Unmarking d's pages leaves the others sound exactly then.
    lemma FreedSound(d: Desc, others: set<Desc>, gone: set<Desc>, marks: set<(int, int)>)
      requires Blocks() && Distinct(others + gone) && others !! gone
      requires forall j, q :: 0 <= j < |phys| && 0 <= q < BLOCK_PAGES ==>
                 && ((j, q) in marks <==> exists y :: y in others + gone && Covers(y, j, q))
                 && bits[j, q] == ((j, q) in marks && !Frees(d, j, q))
      ensures Sound(others) <==> Fair(d, others, gone)
    {
      if Fair(d, others, gone) {
        forall j, q | 0 <= j < |phys| && 0 <= q < BLOCK_PAGES
          ensures bits[j, q] <==> exists y :: y in others && Covers(y, j, q)
        {
          if bits[j, q] {
            var y :| y in others + gone && Covers(y, j, q);
            assert y in others;
          }
        }
      }
      if Sound(others) {
        forall y, j, q | (y in others || y in gone) && 0 <= j < |phys| && 0 <= q < BLOCK_PAGES && Covers(y, j, q)
          ensures Frees(d, j, q) <==> y in gone
        {
          assert y in others + gone;
          assert (j, q) in marks;
          if y in gone && !Frees(d, j, q) {
            var z :| z in others && Covers(z, j, q);
            ApartCovers(y, z, j, q);
          }
        }
      }
    }

    lemma MarksMean(owners: set<Desc>)
      requires Blocks() && Sound(owners)
      ensures Distinct(owners)
      ensures forall j, q :: 0 <= j < |phys| && 0 <= q < BLOCK_PAGES ==>
                && ((j, q) in Marks() <==> bits[j, q])
                && ((j, q) in Marks() <==> exists y :: y in owners && Covers(y, j, q))
    {
    }

    // VPU_IOC_PHYMEM_FREE of any descriptor, stale or made up, that does not run
    // past a block's end.
    method PhymemFree(d: Desc, readable: bool) returns (ok: bool)
      requires Valid() && Clearable(d)
      modifies this`records, bits
      ensures ok == readable
      ensures !readable ==> Valid() && records == old(records)
      ensures readable ==>
                && (forall r :: r in records <==> r in old(records) && r.addr != d.addr)
                && (forall j, q :: 0 <= j < |phys| && 0 <= q < BLOCK_PAGES ==>
                      bits[j, q] == (old(bits[j, q]) && !Frees(d, j, q)))
                && (Valid() <==> old(Harmless(d)))
    {
      hide Sound, Fair, Frees, Owners, Others, Gone;
      ok := readable;
      if readable {
        FreeAndUnlist(d);
      }
    }

    method FreeAndUnlist(d: Desc)
      requires Valid() && Clearable(d)
      modifies this`records, bits
      ensures forall r :: r in records <==> r in old(records) && r.addr != d.addr
      ensures forall j, q :: 0 <= j < |phys| && 0 <= q < BLOCK_PAGES ==> bits[j, q] == (old(bits[j, q]) && !Frees(d, j, q))
      ensures Blocks() && Listed() && (Sound(Owners()) <==> old(Fair(d, Others(d.addr), Gone(d.addr))))
    {
      hide Sound, Fair, Frees, At, InPool, Apart, Distinct, Covers, Marks, Owners, Others, Gone;
      DistinctAddresses();
      StayOrGo(d.addr);
      ghost var others, gone, marks := Others(d.addr), Gone(d.addr), Marks();
      MarksMean(others + gone);
      PoolFree(d);
      Unlist(d.addr);
      Stayed(d.addr);
      FreedSound(d, others, gone, marks);
    }

    lemma DistinctAddresses()
      requires Valid()
      ensures forall r, s :: r in records && s in records && r.addr == s.addr ==> r == s
    {
      forall r, s | r in records && s in records && r.addr == s.addr ensures r == s {
        SameAddr(r, s);
      }
    }

    // VPU_IOC_GET_WORK_ADDR: allocated at the first call, kept for good.
    method GetWorkAddr(size: u32, readable: bool, writable: bool) returns (ok: bool)
      requires Valid()
      modifies this`work, bits
      ensures Valid()
      ensures old(work) != [] ==> work == old(work) && ok == writable
      ensures old(work) == [] ==>
                (work != [] <==> readable && 0 < size <= BLOCK_PAGES * PAGE_SIZE && old(RoomFor(Pages(size))))
                && (work != [] ==> work[0].size == size)
                && (ok <==> work != [] && writable)
    {
      PagesHold(size);
      if |work| > 0 {
        return writable;
      }
      if !readable {
        return false;
      }
      ghost var owners := Owners();
      var addr := Take(size);
      if addr == 0 {
        return false;
      }
      work := [Desc(size, addr)];
      assert Owners() == owners + {Desc(size, addr)};
      ok := writable;
    }

    // vpu_open.
    method Open()
      requires Valid()
      modifies this`openCount
      ensures Valid() && openCount == (old(openCount) + 1) % 0x100
    {
      openCount := (openCount + 1) % 0x100;
    }

    // vpu_free_buffers: every record's buffer is released and the list emptied.
    method FreeBuffers()
      requires Valid()
      modifies this`records, bits
      ensures Valid() && records == []
    {
      while |records| > 0
        invariant Valid()
        decreases |records|
      {
        ghost var owners := Owners();
        var d := records[0];
        Release(d, owners);
        Without(records, 0);
        assert records[1..] == records[..0] + records[1..];
        records := records[1..];
        assert Owners() == owners - {d};
      }
    }

    // Exactly the work buffer's pages are marked.
    ghost predicate OnlyWorkMarked()
      requires Blocks()
      reads this, bits
    {
      Marked(set d | d in work)
    }

    // vpu_release.
    method Close()
      requires Valid()
      modifies this`openCount, this`records, bits
      ensures Valid()
      ensures openCount == if old(openCount) > 0 then old(openCount) - 1 else 0
      ensures if old(openCount) == 1 then records == [] else records == old(records)
      ensures old(openCount) == 1 ==> (OnlyWorkMarked() <==> leaked == {})
    {
      if openCount > 0 {
        openCount := openCount - 1;
        if openCount == 0 {
          FreeBuffers();
          OnlyWork();
        }
      }
    }

    // A marked page has one owner and no more.
    lemma OneOwner(i: nat, p: nat)
      requires Valid() && i < |phys| && p < BLOCK_PAGES
      ensures bits[i, p] <==> exists d :: d in Owners() && Covers(d, i, p)
                                          && forall y :: y in Owners() && Covers(y, i, p) ==> y == d
    {
      if bits[i, p] {
        var d :| d in Owners() && Covers(d, i, p);
        forall y | y in Owners() && Covers(y, i, p) ensures y == d {
          if y != d {
            ApartCovers(d, y, i, p);
          }
        }
      }
    }

    // With the list empty, what is marked beyond the work buffer has leaked.
    lemma OnlyWork()
      requires Valid() && records == []
      ensures OnlyWorkMarked() <==> leaked == {}
    {
      var kept := set d | d in work;
      assert Owners() == kept + leaked;
      if leaked == {} {
        assert Owners() == kept;
      } else {
        var d :| d in leaked;
        assert InPool(d);
        var b: nat, p: nat :| At(d, b, p);
        OwnsItself(d, b, p);
        assert bits[b, p];
        forall y | y in kept ensures !Covers(y, b, p) {
          ApartCovers(d, y, b, p);
        }
      }
    }

    // When that is: a listed buffer is freed without harm, and so is a stale
    // descriptor whose pages nobody has got since; the work buffer never is, nor a
    // stale descriptor of pages that somebody owns.
    lemma HarmlessWhen(d: Desc)
      requires Valid() && Clearable(d)
      ensures d in records ==> Harmless(d)
      ensures d in work ==> !Harmless(d)
      ensures Gone(d.addr) == {} ==>
                (Harmless(d) <==> forall y, j, q :: y in Owners() && 0 <= j < |phys| && 0 <= q < BLOCK_PAGES && Covers(y, j, q)
                                                    ==> !Frees(d, j, q))
    {
      hide Sound, Owners, Others, Gone;
      StayOrGo(d.addr);
      if d in records || d in work {
        LiveHarmless(d);
      }
    }

    lemma ListedFree(d: Desc)
      requires Valid() && d in records
      ensures Clearable(d) && Harmless(d)
    {
      assert InPool(d);
      PoolIsClearable(d);
      LiveHarmless(d);
    }

    lemma LiveHarmless(d: Desc)
      requires Valid() && (d in records || d in work)
      ensures Harmless(d) <==> d in records
    {
      assert InPool(d);
      var b: nat, p: nat :| At(d, b, p);
      OwnsItself(d, b, p);
      FreesOwn(d, b, p, b, p);
      DistinctAddresses();
      forall y | y in work && y.addr == d.addr && d in records ensures false {
        SameAddr(y, d);
      }
      if d in records {
        assert Gone(d.addr) == {d};
        forall y, j, q | (y in Others(d.addr) || y in Gone(d.addr)) && 0 <= j < |phys| && 0 <= q < BLOCK_PAGES && Covers(y, j, q)
          ensures Frees(d, j, q) <==> y in Gone(d.addr)
        {
          FreesOwn(d, b, p, j, q);
          if y != d {
            ApartCovers(y, d, j, q);
          }
        }
      } else {
        assert d in Others(d.addr) && d !in Gone(d.addr);
      }
    }
  }

  // What comes in through the device file.  Buffers are freed by their place in the
  // list, the null descriptor when it is empty.
  datatype Request =
    | Open
    | Close
    | Work(size: u32, readable: bool, writable: bool)
    | Alloc(size: u32, memory: bool, readable: bool, writable: bool)
    | Free(k: nat, readable: bool)

  // vpu_open's counter after these requests, 8 bits wide.
  function Opened(start: nat, requests: seq<Request>): nat {
    if requests == [] then start
    else
      var before := Opened(start, requests[..|requests| - 1]);
      match requests[|requests| - 1]
      case Open => (before + 1) % 0x100
      case Close => if before > 0 then before - 1 else 0
      case _ => before
  }

  // The last of these requests is a last close.
  predicate EndsClosed(start: nat, requests: seq<Request>) {
    && requests != [] && requests[|requests| - 1].Close?
    && Opened(start, requests[..|requests| - 1]) == 1
  }

  // An allocation that got its pages and then could not copy the descriptor out.
  predicate CopyOutFailed(request: Request, rc: int) {
    request.Alloc? && request.readable && rc == -EFAULT
  }

  method OneRequest(pool: Pool, request: Request) returns (rc: int)
    requires pool.Valid()
    modifies pool, pool.bits
    ensures pool.Valid()
    ensures pool.openCount == Opened(old(pool.openCount), [request])
    ensures old(pool.leaked) <= pool.leaked && (pool.leaked != old(pool.leaked) <==> CopyOutFailed(request, rc))
    ensures CopyOutFailed(request, rc) ==> !request.writable
    ensures request.Close? && old(pool.openCount) == 1 ==>
              pool.records == [] && (pool.OnlyWorkMarked() <==> pool.leaked == {})
  {
    OneOpened(pool.openCount, request);
    rc := 0;
    match request
    case Open =>
      pool.Open();
    case Close =>
      pool.Close();
    case Work(size, readable, writable) =>
      var ok := pool.GetWorkAddr(size, readable, writable);
      rc := if ok then 0 else -EFAULT;
    case Alloc(size, memory, readable, writable) =>
      var d;
      rc, d := pool.PhymemAlloc(size, memory, readable, writable);
    case Free(k, readable) =>
      if |pool.records| > 0 {
        var d := pool.records[k % |pool.records|];
        pool.ListedFree(d);
        var ok := pool.PhymemFree(d, readable);
      }
  }

  lemma OneOpened(start: nat, request: Request)
    ensures Opened(start, [request]) == match request
                                        case Open => (start + 1) % 0x100
                                        case Close => if start > 0 then start - 1 else 0
                                        case _ => start
  {
    assert [request][..0] == [];
  }

  // Any sequence of requests: the bytes asked for stay apart and the marked pages
  // are theirs, and when the last close has emptied the list exactly the work
  // buffer's pages are marked, if and only if no copy-out has failed.
  method AnyRequests(pool: Pool, requests: seq<Request>) returns (rcs: seq<int>)
    requires pool.Valid() && pool.leaked == {}
    modifies pool, pool.bits
    ensures pool.Valid() && pool.Separate() && |rcs| == |requests|
    ensures pool.openCount == Opened(old(pool.openCount), requests)
    ensures forall j :: 0 <= j < |rcs| && CopyOutFailed(requests[j], rcs[j]) ==> !requests[j].writable
    ensures EndsClosed(old(pool.openCount), requests) ==>
              && pool.records == []
              && (pool.OnlyWorkMarked() <==> forall j :: 0 <= j < |rcs| ==> !CopyOutFailed(requests[j], rcs[j]))
  {
    hide Opened, EndsClosed;
    NoneOpened(pool.openCount);
    rcs := [];
    while |rcs| < |requests|
      invariant pool.Valid() && |rcs| <= |requests|
      invariant pool.openCount == Opened(old(pool.openCount), requests[..|rcs|])
      invariant pool.leaked == {} <==> forall j :: 0 <= j < |rcs| ==> !CopyOutFailed(requests[j], rcs[j])
      invariant forall j :: 0 <= j < |rcs| && CopyOutFailed(requests[j], rcs[j]) ==> !requests[j].writable
      invariant EndsClosed(old(pool.openCount), requests[..|rcs|]) ==>
                  pool.records == [] && (pool.OnlyWorkMarked() <==> pool.leaked == {})
    {
      var n := |rcs|;
      NextOpened(old(pool.openCount), requests, n);
      var rc := OneRequest(pool, requests[n]);
      rcs := rcs + [rc];
      assert forall j :: 0 <= j < n ==> rcs[j] == rcs[..n][j];
    }
    assert requests[..|rcs|] == requests;
    pool.HoldsAll();
  }

  lemma NoneOpened(start: nat)
    ensures Opened(start, []) == start && !EndsClosed(start, [])
  {
  }

  lemma NextOpened(start: nat, requests: seq<Request>, n: nat)
    requires n < |requests|
    ensures Opened(start, requests[..n + 1]) == Opened(Opened(start, requests[..n]), [requests[n]])
    ensures EndsClosed(start, requests[..n + 1]) <==> requests[n].Close? && Opened(start, requests[..n]) == 1
  {
    assert requests[..n + 1][..n] == requests[..n];
    OneOpened(Opened(start, requests[..n]), requests[n]);
  }

  // One failed copy-out is enough: the page outlives the last close.
  method LeakExample() returns (pool: Pool)
    ensures pool.Valid() && pool.openCount == 0 && pool.records == [] && pool.work == []
    ensures !pool.OnlyWorkMarked()
  {
    pool := new Pool([0x400_0000]);
    pool.Open();
    assert pool.Owners() == {};
    assert pool.FreeRun(0, 0, 1);
    assert Pages(PAGE_SIZE) == 1;
    var rc, d := pool.PhymemAlloc(PAGE_SIZE, true, true, false);
    pool.Close();
  }

  lemma Without(s: seq<Desc>, i: nat)
    requires i < |s| && forall j, k :: 0 <= j < k < |s| ==> s[j] != s[k]
    ensures var t := s[..i] + s[i + 1..];
            && (forall r :: r in t <==> r in s && r != s[i])
            && forall j, k :: 0 <= j < k < |t| ==> t[j] != t[k]
  {
    var t := s[..i] + s[i + 1..];
    forall r | r in s && r != s[i] ensures r in t {
      var j :| 0 <= j < |s| && s[j] == r;
      assert j < i ==> t[j] == r;
      assert j > i ==> t[j - 1] == r;
    }
  }
}
