/**
 * The emulator's sparse paged memory. It stands for a flat, total map from addresses to
 * bytes, zero where nothing was written; addresses are unbounded integers, negative included.
 */
module VirtualMemories {
  import opened Words

  /** The address of a page, always aligned. */
  type Page = p: int | p % 0x1000 == 0

  type Memory = imap<int, Byte>

  ghost predicate Total(m: Memory) {
    forall a: int :: a in m
  }

  ghost const BLANK: Memory := imap a: int :: 0

  /** `addr & ~0xFFF`, also for negative addresses. */
  function Base(addr: int): Page {
    addr - addr % 0x1000
  }

  ghost function Written(m: Memory, addr: int, data: seq<Byte>): (r: Memory)
    requires Total(m)
    ensures Total(r)
  {
    imap a: int :: if addr <= a < addr + |data| then data[a - addr] else m[a]
  }

  ghost function Slice(m: Memory, addr: int, size: nat): (r: seq<Byte>)
    requires Total(m)
    ensures |r| == size
    ensures forall i :: 0 <= i < size ==> r[i] == m[addr + i]
  {
    seq(size, i requires 0 <= i < size => m[addr + i])
  }

  /** Reading after writing: new bytes on the overlap, old ones elsewhere, wherever the page borders fall. */
  lemma ReadAfterWrite(m: Memory, addr: int, data: seq<Byte>, from: int, size: nat)
    requires Total(m)
    ensures forall i :: 0 <= i < size ==>
              Slice(Written(m, addr, data), from, size)[i] ==
              if addr <= from + i < addr + |data| then data[from + i - addr] else Slice(m, from, size)[i]
    ensures Slice(Written(m, addr, data), addr, |data|) == data
    ensures from + size <= addr || addr + |data| <= from ==>
              Slice(Written(m, addr, data), from, size) == Slice(m, from, size)
  {
  }

  lemma SliceJoin(m: Memory, addr: int, n: nat, more: nat)
    requires Total(m)
    ensures Slice(m, addr, n) + Slice(m, addr + n, more) == Slice(m, addr, n + more)
  {
  }

  lemma WrittenNothing(m: Memory, addr: int)
    requires Total(m)
    ensures Written(m, addr, []) == m
  {
    var w := Written(m, addr, []);
    forall a: int ensures a in w <==> a in m {
      assert a in m;
    }
  }

  lemma WrittenJoin(m: Memory, addr: int, data: seq<Byte>, more: seq<Byte>)
    requires Total(m)
    ensures Written(Written(m, addr, data), addr + |data|, more) == Written(m, addr, data + more)
  {
  }

  lemma InPage(p: Page, a: int)
    ensures p <= a < p + 0x1000 <==> Base(a) == p
  {
  }

  /** The page holds some of the `n` addresses from `addr` on. */
  predicate Touches(p: Page, addr: int, n: nat) {
    n > 0 && p < addr + n && addr < p + 0x1000
  }

  lemma TouchesMore(addr: int, n: nat, chunk: nat)
    requires chunk > 0 && (addr + n) % 0x1000 + chunk <= 0x1000
    ensures forall p: Page :: Touches(p, addr, n + chunk) <==> Touches(p, addr, n) || p == Base(addr + n)
  {
    forall p: Page ensures Touches(p, addr, n + chunk) <==> Touches(p, addr, n) || p == Base(addr + n) {
      InPage(p, addr + n);
      InPage(p, addr + n + chunk - 1);
    }
  }

  lemma WrittenMore(m: Memory, addr: int, data: seq<Byte>, offset: nat, chunk: nat)
    requires Total(m) && offset + chunk <= |data|
    ensures Written(Written(m, addr, data[..offset]), addr + offset, data[offset..offset + chunk]) ==
            Written(m, addr, data[..offset + chunk])
  {
    WrittenJoin(m, addr, data[..offset], data[offset..offset + chunk]);
    assert data[..offset] + data[offset..offset + chunk] == data[..offset + chunk];
  }

  function TouchedPages(addr: int, n: nat): set<Page> {
    set p: Page | addr - 0x1000 <= p < addr + n && Touches(p, addr, n)
  }

  lemma TouchedMore(addr: int, n: nat, chunk: nat)
    requires chunk > 0 && (addr + n) % 0x1000 + chunk <= 0x1000
    ensures TouchedPages(addr, n + chunk) == TouchedPages(addr, n) + {Base(addr + n)}
  {
    TouchesMore(addr, n, chunk);
    InPage(Base(addr + n), addr + n);
  }

  /** Permissions after some pages were needed: those not there before came to be, with `prot`. */
  function Granted(before: map<Page, string>, touched: set<Page>, prot: string): map<Page, string> {
    before + map p | p in touched && p !in before :: prot
  }

  lemma GrantedMore(before: map<Page, string>, touched: set<Page>, p: Page, prot: string)
    ensures Granted(Granted(before, touched, prot), {p}, prot) == Granted(before, touched + {p}, prot)
  {
  }

  /** Memory as its parts: contents, written pages and permissions. */
  datatype Parts = Parts(memory: Memory, written: set<Page>, permissions: map<Page, string>)

  /** From one state to another, so much of the data has been written. */
  ghost predicate Sent(before: Parts, now: Parts, addr: int, data: seq<Byte>, offset: nat)
    requires Total(before.memory) && offset <= |data|
  {
    && now.memory == Written(before.memory, addr, data[..offset])
    && now.written == before.written + TouchedPages(addr, offset)
    && now.permissions == Granted(before.permissions, TouchedPages(addr, offset), "RWX")
  }

  lemma NothingYet(before: Parts, addr: int, data: seq<Byte>)
    requires Total(before.memory)
    ensures Sent(before, before, addr, data, 0)
  {
    WrittenNothing(before.memory, addr);
    assert data[..0] == [] && TouchedPages(addr, 0) == {};
  }

  /** One round of the write loop. */
  lemma WriteRound(before: Parts, now: Parts, next: Parts, addr: int, data: seq<Byte>, offset: nat, chunk: nat)
    requires Total(before.memory) && Total(now.memory)
    requires chunk > 0 && offset + chunk <= |data| && (addr + offset) % 0x1000 + chunk <= 0x1000
    requires Sent(before, now, addr, data, offset)
    requires next == Parts(Written(now.memory, addr + offset, data[offset..offset + chunk]), now.written + {Base(addr + offset)},
                           Granted(now.permissions, {Base(addr + offset)}, "RWX"))
    ensures Sent(before, next, addr, data, offset + chunk)
  {
    WrittenMore(before.memory, addr, data, offset, chunk);
    TouchedMore(addr, offset, chunk);
    GrantedMore(before.permissions, TouchedPages(addr, offset), Base(addr + offset), "RWX");
  }

  lemma AllSent(before: Parts, now: Parts, addr: int, data: seq<Byte>)
    requires Total(before.memory) && Sent(before, now, addr, data, |data|)
    ensures now == Parts(Written(before.memory, addr, data), before.written + TouchedPages(addr, |data|),
                         Granted(before.permissions, TouchedPages(addr, |data|), "RWX"))
  {
    assert data[..|data|] == data;
  }

  /** The pages an allocation maps: that of its address, and those that start within `size` of that page's start. */
  predicate Mapped(p: Page, addr: int, size: int) {
    p == Base(addr) || Base(addr) < p < Base(addr) + size
  }

  function PageCount(size: int): nat {
    if (size + 0xFFF) / 0x1000 > 1 then (size + 0xFFF) / 0x1000 else 1
  }

  /** The bases of `n` consecutive pages. */
  function PageRange(base: Page, n: nat): set<Page> {
    if n == 0 then {} else PageRange(base, n - 1) + {base + 0x1000 * (n - 1)}
  }

  lemma {:induction false} InRange(base: Page, n: nat)
    ensures forall p: Page :: p in PageRange(base, n) <==> base <= p < base + 0x1000 * n
  {
    if n > 0 {
      InRange(base, n - 1);
    }
  }

  lemma RangeMapped(addr: int, size: int)
    ensures forall p: Page :: p in PageRange(Base(addr), PageCount(size)) <==> Mapped(p, addr, size)
  {
    InRange(Base(addr), PageCount(size));
  }

  /** All pages of a range are mapped exactly when its first and last byte lie in order in their pages. */
  lemma MappedCovers(addr: int, size: nat)
    requires size > 0
    ensures (forall p: Page :: Touches(p, addr, size) ==> Mapped(p, addr, size)) <==>
              addr % 0x1000 + (size - 1) % 0x1000 < 0x1000
  {
    var last := Base(addr + size - 1);
    InPage(last, addr + size - 1);
    if Base(addr) < last && Base(addr) + size <= last {
      assert Touches(last, addr, size) && !Mapped(last, addr, size);
    }
  }

  /** An instance: two bytes across a page border get one page. */
  lemma AllocFallsShort()
    ensures Touches(0x1000, 0xFFF, 2) && !Mapped(0x1000, 0xFFF, 2)
  {
  }

  // ---------- The paged memory ----------

  predicate Blank(data: seq<Byte>) {
    forall i :: 0 <= i < |data| ==> data[i] == 0
  }

  /** Outside the pages in the set, memory is zero. */
  ghost predicate Untouched(m: Memory, written: set<Page>)
    requires Total(m)
  {
    forall a: int :: m[a] != 0 ==> Base(a) in written
  }

  /** What a page table stands for. */
  ghost function Flat(pages: map<Page, seq<Byte>>): (m: Memory)
    requires forall p :: p in pages ==> |pages[p]| == 0x1000
    ensures Total(m)
  {
    imap a: int :: if Base(a) in pages then pages[Base(a)][a % 0x1000] else 0
  }

  lemma FlatBlankPage(pages: map<Page, seq<Byte>>, p: Page)
    requires forall q :: q in pages ==> |pages[q]| == 0x1000
    requires p !in pages
    ensures Flat(pages[p := seq(0x1000, _ => 0)]) == Flat(pages)
  {
  }

  /** `page[off : off + n] = chunk`. */
  function Spliced(page: seq<Byte>, off: nat, chunk: seq<Byte>): (r: seq<Byte>)
    requires off + |chunk| <= |page|
    ensures |r| == |page|
    ensures forall i :: 0 <= i < |r| ==> r[i] == if off <= i < off + |chunk| then chunk[i - off] else page[i]
  {
    page[..off] + chunk + page[off + |chunk|..]
  }

  lemma FlatStore(pages: map<Page, seq<Byte>>, p: Page, off: nat, chunk: seq<Byte>)
    requires forall q :: q in pages ==> |pages[q]| == 0x1000
    requires p in pages && off + |chunk| <= 0x1000
    ensures Flat(pages[p := Spliced(pages[p], off, chunk)]) == Written(Flat(pages), p + off, chunk)
  {
    var after := Flat(pages[p := Spliced(pages[p], off, chunk)]);
    var expected := Written(Flat(pages), p + off, chunk);
    forall a: int ensures after[a] == expected[a] {
      InPage(p, a);
    }
  }

  lemma UntouchedStore(m: Memory, written: set<Page>, p: Page, off: nat, chunk: seq<Byte>)
    requires Total(m) && Untouched(m, written) && off + |chunk| <= 0x1000
    ensures Untouched(Written(m, p + off, chunk), written + {p})
  {
    var w := Written(m, p + off, chunk);
    forall a: int | w[a] != 0 ensures Base(a) in written + {p} {
      InPage(p, a);
    }
  }

  /** A range inside one page reads as a slice of that page, or as zeros. */
  lemma FlatChunk(pages: map<Page, seq<Byte>>, cur: int, n: nat)
    requires forall q :: q in pages ==> |pages[q]| == 0x1000
    requires cur % 0x1000 + n <= 0x1000
    ensures Slice(Flat(pages), cur, n) ==
            if Base(cur) in pages then pages[Base(cur)][cur % 0x1000..cur % 0x1000 + n] else seq(n, _ => 0)
  {
    forall i {:trigger Flat(pages)[cur + i]} | 0 <= i < n
      ensures Base(cur + i) == Base(cur) && (cur + i) % 0x1000 == cur % 0x1000 + i
    {
      InPage(Base(cur), cur + i);
    }
  }

  class VirtualMemory {
    const is64: bool
    var pages: map<Page, seq<Byte>>
    var permissions: map<Page, string>
    var writtenPages: set<Page>

    /** The flat memory the pages stand for. */
    ghost function Contents(): (m: Memory)
      requires Shaped()
      reads this
      ensures Total(m)
    {
      Flat(pages)
    }

    ghost function View(): Parts
      requires Shaped()
      reads this
    {
      Parts(Contents(), writtenPages, permissions)
    }

    ghost predicate Shaped()
      reads this
    {
      forall p :: p in pages ==> |pages[p]| == 0x1000
    }

    /** Pages are whole and have permissions; only written pages hold anything but zeros. */
    ghost predicate Valid()
      reads this
    {
      && Shaped()
      && writtenPages <= pages.Keys
      && permissions.Keys == pages.Keys
      && Untouched(Contents(), writtenPages)
    }

    constructor (is64: bool)
      ensures Valid() && this.is64 == is64 && pages == map[] && writtenPages == {}
      ensures forall a: int :: Contents()[a] == 0
    {
      this.is64 := is64;
      pages, permissions, writtenPages := map[], map[], {};
    }

    /** Maps whole pages from the one of `addr` on and never changes what memory holds. */
    method Alloc(addr: int, size: int, prot: string) returns (r: int)
      requires Valid()
      modifies this`pages, this`permissions
      ensures Valid() && r == addr && Contents() == old(Contents())
      ensures forall p: Page :: p in permissions <==> p in old(permissions) || Mapped(p, addr, size)
      ensures forall p :: p in permissions ==> permissions[p] == if p in old(permissions) then old(permissions)[p] else prot
    {
      var base := Base(addr);
      var i := 0;
      while i < PageCount(size)
        invariant 0 <= i <= PageCount(size) && Valid() && Contents() == old(Contents())
        invariant permissions == Granted(old(permissions), PageRange(base, i), prot)
      {
        GrantedMore(old(permissions), PageRange(base, i), base + 0x1000 * i, prot);
        MapPage(base + i * 0x1000, prot);
        i := i + 1;
      }
      RangeMapped(addr, size);
      return addr;
    }

    /** The body of that loop: a page of zeros, unless the page is there already. */
    method MapPage(p: Page, prot: string)
      requires Valid()
      modifies this`pages, this`permissions
      ensures Valid() && Contents() == old(Contents())
      ensures permissions == Granted(old(permissions), {p}, prot)
    {
      if p !in pages {
        FlatBlankPage(pages, p);
        pages := pages[p := seq(0x1000, _ => 0)];
        permissions := permissions[p := prot];
      }
    }

    /** Its first statement. */
    method NeedPage(p: Page)
      requires Valid()
      modifies this`pages, this`permissions
      ensures Valid() && Contents() == old(Contents()) && p in pages
      ensures permissions == Granted(old(permissions), {p}, "RWX")
    {
      if p !in pages {
        var _ := Alloc(p, 0x1000, "RWX");
        assert forall q: Page :: q in permissions <==> q in old(permissions) || q == p;
      }
    }

    /** One round of the write loop: maps the page if need be, then assigns a slice of it. */
    method WriteChunk(cur: int, chunk: seq<Byte>)
      requires Valid() && cur % 0x1000 + |chunk| <= 0x1000
      modifies this`pages, this`permissions, this`writtenPages
      ensures Valid() && Contents() == Written(old(Contents()), cur, chunk)
      ensures writtenPages == old(writtenPages) + {Base(cur)}
      ensures permissions == Granted(old(permissions), {Base(cur)}, "RWX")
    {
      var p := Base(cur);
      NeedPage(p);
      var pageOff := cur % 0x1000;
      FlatStore(pages, p, pageOff, chunk);
      UntouchedStore(Contents(), writtenPages, p, pageOff, chunk);
      pages := pages[p := Spliced(pages[p], pageOff, chunk)];
      writtenPages := writtenPages + {p};
    }

    method WriteBytes(addr: int, data: seq<Byte>)
      requires Valid()
      modifies this`pages, this`permissions, this`writtenPages
      ensures Valid() && Contents() == Written(old(Contents()), addr, data)
      ensures writtenPages == old(writtenPages) + TouchedPages(addr, |data|)
      ensures permissions == Granted(old(permissions), TouchedPages(addr, |data|), "RWX")
    {
      hide Untouched, Flat, Sent, TouchedPages, Granted, Written;
      ghost var before := View();
      var cur, offset := addr, 0;
      NothingYet(before, addr, data);
      while offset < |data|
        invariant 0 <= offset <= |data| && cur == addr + offset
        invariant Valid() && Sent(before, View(), addr, data, offset)
      {
        ghost var now := View();
        var pageOff := cur % 0x1000;
        var chunkSize := if |data| - offset < 0x1000 - pageOff then |data| - offset else 0x1000 - pageOff;
        WriteChunk(cur, data[offset..offset + chunkSize]);
        WriteRound(before, now, View(), addr, data, offset, chunkSize);
        cur, offset := cur + chunkSize, offset + chunkSize;
      }
      AllSent(before, View(), addr, data);
    }

    method ReadBytes(addr: int, size: nat) returns (res: seq<Byte>)
      requires Valid()
      ensures res == Slice(Contents(), addr, size)
    {
      res := [];
      var cur, remaining := addr, size;
      while remaining > 0
        invariant 0 <= remaining <= size && cur + remaining == addr + size
        invariant res == Slice(Contents(), addr, size - remaining)
      {
        var p := Base(cur);
        var pageOff := cur % 0x1000;
        var chunkSize := if remaining < 0x1000 - pageOff then remaining else 0x1000 - pageOff;
        FlatChunk(pages, cur, chunkSize);
        SliceJoin(Contents(), addr, size - remaining, chunkSize);
        if p in pages {
          res := res + pages[p][pageOff..pageOff + chunkSize];
        } else {
          res := res + seq(chunkSize, _ => 0);
        }
        cur, remaining := cur + chunkSize, remaining - chunkSize;
      }
    }

    method WriteU32(addr: int, val: int)
      requires Valid()
      modifies this`pages, this`permissions, this`writtenPages
      ensures Valid() && Contents() == Written(old(Contents()), addr, Pack(val, DWORD))
    {
      PackLow(val, DWORD);
      Powers();
      WriteBytes(addr, Pack(val % 0x1_0000_0000, DWORD));
    }

    method ReadU32(addr: int) returns (v: nat)
      requires Valid()
      ensures v == Unpack(Slice(Contents(), addr, DWORD)) && v < 0x1_0000_0000
    {
      var data := ReadBytes(addr, DWORD);
      Powers();
      v := Unpack(data);
    }

    method WriteU64(addr: int, val: int)
      requires Valid()
      modifies this`pages, this`permissions, this`writtenPages
      ensures Valid() && Contents() == Written(old(Contents()), addr, Pack(val, QWORD))
    {
      PackLow(val, QWORD);
      Powers();
      WriteBytes(addr, Pack(val % 0x1_0000_0000_0000_0000, QWORD));
    }

    method ReadU64(addr: int) returns (v: nat)
      requires Valid()
      ensures v == Unpack(Slice(Contents(), addr, QWORD)) && v < 0x1_0000_0000_0000_0000
    {
      var data := ReadBytes(addr, QWORD);
      Powers();
      v := Unpack(data);
    }

    /** The written pages that are not all zero, in ascending address order. */
    method GetModifiedBuffers() returns (buffers: seq<seq<Byte>>)
      requires Valid()
      ensures exists bases: seq<Page> :: Harvested(pages, writtenPages, bases, buffers)
    {
      ghost var bases: seq<Page> := [];
      buffers := [];
      var rest := writtenPages;
      while rest != {}
        invariant rest <= writtenPages && |buffers| == |bases|
        invariant forall i, j :: 0 <= i < j < |bases| ==> bases[i] < bases[j]
        invariant forall q, p :: q in bases && p in rest ==> q < p
        invariant forall i :: 0 <= i < |bases| ==> bases[i] in pages && buffers[i] == pages[bases[i]]
        invariant forall p :: p in bases <==> p in writtenPages && p !in rest && !Blank(pages[p])
        decreases rest
      {
        var p := Least(rest);
        rest := rest - {p};
        var pageData := pages[p];
        if !Blank(pageData) {
          buffers, bases := buffers + [pageData], bases + [p];
        }
      }
      assert Harvested(pages, writtenPages, bases, buffers);
    }
  }

  /** The smallest element, by scanning. */
  method Least(s: set<Page>) returns (p: Page)
    requires s != {}
    ensures p in s && forall q :: q in s ==> p <= q
  {
    p :| p in s;
    var rest := s - {p};
    while rest != {}
      invariant p in s && rest <= s && forall q :: q in s ==> q in rest || p <= q
      decreases rest
    {
      var q :| q in rest;
      rest := rest - {q};
      if q < p {
        p := q;
      }
    }
  }

  /** `buffers` are the pages at `bases`: in ascending order, exactly the written ones that are not all zero. */
  ghost predicate Harvested(pages: map<Page, seq<Byte>>, written: set<Page>, bases: seq<Page>, buffers: seq<seq<Byte>>) {
    && (forall i, j :: 0 <= i < j < |bases| ==> bases[i] < bases[j])
    && |buffers| == |bases| && (forall i :: 0 <= i < |bases| ==> bases[i] in pages && buffers[i] == pages[bases[i]])
    && forall p :: p in bases <==> p in written && p in pages && exists i :: 0 <= i < |pages[p]| && pages[p][i] != 0
  }

  /** Memory laid out again from a harvest. */
  ghost function Rebuilt(bases: seq<Page>, buffers: seq<seq<Byte>>): (m: Memory)
    requires |bases| == |buffers|
    ensures Total(m)
  {
    if bases == [] then BLANK
    else Written(Rebuilt(bases[..|bases| - 1], buffers[..|buffers| - 1]), bases[|bases| - 1], buffers[|buffers| - 1])
  }

  /** The harvest loses nothing: laid out again, the harvested pages give back all of memory. */
  lemma HarvestComplete(pages: map<Page, seq<Byte>>, written: set<Page>, bases: seq<Page>, buffers: seq<seq<Byte>>)
    requires forall p :: p in pages ==> |pages[p]| == 0x1000
    requires written <= pages.Keys && Untouched(Flat(pages), written) && Harvested(pages, written, bases, buffers)
    ensures forall a: int :: Rebuilt(bases, buffers)[a] == Flat(pages)[a]
  {
    RebuiltAt(pages, bases, buffers);
  }

  lemma {:induction false} RebuiltAt(pages: map<Page, seq<Byte>>, bases: seq<Page>, buffers: seq<seq<Byte>>)
    requires forall p :: p in pages ==> |pages[p]| == 0x1000
    requires |buffers| == |bases| && forall i :: 0 <= i < |bases| ==> bases[i] in pages && buffers[i] == pages[bases[i]]
    ensures forall a: int :: Rebuilt(bases, buffers)[a] == if Base(a) in bases then Flat(pages)[a] else 0
  {
    if bases != [] {
      var n := |bases| - 1;
      RebuiltAt(pages, bases[..n], buffers[..n]);
      assert bases == bases[..n] + [bases[n]];
      forall a: int
        ensures Rebuilt(bases, buffers)[a] == if Base(a) in bases then Flat(pages)[a] else 0
      {
        InPage(bases[n], a);
      }
    }
  }
}
