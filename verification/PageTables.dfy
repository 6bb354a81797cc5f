/** Two-level page tables, page reference counts and the TLB (kern/mm/pmm.c), against the address space
    they stand for. Physical pages are named by frame number; a word of a table is a slot of a frame.
    The hardware side follows sections 4.3 (32-bit paging) and 4.10 (cached translations) of the
    Intel Software Developer's Manual, Volume 3A. */
module PageTables {
  import opened Basics

  const PTE_P: bv32 := 0x001
  const PTE_W: bv32 := 0x002
  const PTE_U: bv32 := 0x004
  const FLAGS: bv32 := 0xFFF

  // ------------------------------------------------------------------ address arithmetic (mmu.h, pmm.h)

  function PDX(la: bv32): bv32 { (la >> 22) & 0x3FF }

  function PTX(la: bv32): bv32 { (la >> 12) & 0x3FF }

  function PPN(a: bv32): bv32 { a >> 12 }

  function PGOFF(la: bv32): bv32 { la & 0xFFF }

  function PTE_ADDR(e: bv32): bv32 { e & 0xFFFFF000 }

  function PGADDR(d: bv32, t: bv32, o: bv32): bv32 { (d << 22) | (t << 12) | o }

  /** A page of physical memory, named by its frame number (page2ppn). */
  datatype Frame = Frame(ppn: bv32)

  function Page2pa(page: Frame): bv32 { page.ppn << 12 }

  predicate Present(e: bv32) { e & PTE_P != 0 }

  /** pte2page: the frame an entry names. */
  function FrameOf(e: bv32): Frame { Frame(PPN(PTE_ADDR(e))) }

  function MakePte(page: Frame, perm: bv32): bv32 { Page2pa(page) | PTE_P | perm }

  const FRAMES: bv32 := 0x100000

  /** An address is put together again from its parts. */
  lemma AddressParts(la: bv32)
    ensures PGADDR(PDX(la), PTX(la), PGOFF(la)) == la
    ensures PDX(la) < 0x400 && PTX(la) < 0x400 && PGOFF(la) < 0x1000
  {
  }

  lemma AddressOfParts(d: bv32, t: bv32, o: bv32)
    requires d < 0x400 && t < 0x400 && o < 0x1000
    ensures PDX(PGADDR(d, t, o)) == d && PTX(PGADDR(d, t, o)) == t && PGOFF(PGADDR(d, t, o)) == o
  {
  }

  /** The two table indices of a page number, and the page number of two indices. */
  function DirIndex(v: bv32): bv32 { v >> 10 }

  function TabIndex(v: bv32): bv32 { v & 0x3FF }

  function PageNumber(d: bv32, t: bv32): bv32 { (d << 10) | t }

  lemma PageNumberParts(a: bv32)
    ensures PDX(a) == DirIndex(PPN(a)) && PTX(a) == TabIndex(PPN(a))
    ensures PPN(a) < FRAMES
  {
  }

  lemma IndexParts(v: bv32)
    requires v < FRAMES
    ensures v == PageNumber(DirIndex(v), TabIndex(v)) && DirIndex(v) < 0x400 && TabIndex(v) < 0x400
  {
  }

  /** Different page numbers differ in a directory or table index. */
  lemma SameIndices(v: bv32, w: bv32)
    requires v < FRAMES && w < FRAMES && DirIndex(v) == DirIndex(w) && TabIndex(v) == TabIndex(w)
    ensures v == w
  {
    hide PageNumber, DirIndex, TabIndex;
    IndexParts(v);
    IndexParts(w);
  }

  predicate AmongBits(b: bv32, a: bv32) { b & a == b }

  function Or(a: bv32, b: bv32): bv32 { a | b }

  lemma MadeNumber(page: Frame, perm: bv32)
    requires page.ppn < FRAMES
    ensures FrameOf(MakePte(page, perm)).ppn == Or(page.ppn, PPN(perm))
  {
  }

  lemma OrAbsorbs(a: bv32, b: bv32)
    requires Or(a, b) == a
    ensures AmongBits(b, a)
  {
  }

  lemma AndAbsorbs(a: bv32, b: bv32)
    requires AmongBits(b, a)
    ensures Or(a, b) == a
  {
  }

  /** The entry written for a page names it exactly when the address bits of `perm` are among the page's own. */
  lemma MadePteIff(page: Frame, perm: bv32)
    requires page.ppn < FRAMES
    ensures FrameOf(MakePte(page, perm)).ppn == page.ppn <==> AmongBits(PPN(perm), page.ppn)
  {
    hide *;
    MadeNumber(page, perm);
    if Or(page.ppn, PPN(perm)) == page.ppn { OrAbsorbs(page.ppn, PPN(perm)); }
    if AmongBits(PPN(perm), page.ppn) { AndAbsorbs(page.ppn, PPN(perm)); }
  }

  /** It is present, with the flags of `perm`. */
  lemma MadeFlags(page: Frame, perm: bv32)
    ensures Present(MakePte(page, perm)) && FlagsOf(MakePte(page, perm)) == FlagsOf(perm) | PTE_P
  {
  }

  lemma SameFrame(a: Frame, b: Frame)
    requires a.ppn == b.ppn
    ensures a == b
  {
  }

  // ------------------------------------------------------------------ tables in memory

  datatype Slot = Slot(frame: Frame, index: bv32)

  type Memory = map<Slot, bv32>

  /** A page and the flag bits a translation carries. */
  datatype Mapping = Mapping(page: Frame, flags: bv32)

  datatype Key = Key(dir: Frame, vpn: bv32)

  type Space = map<Key, Mapping>

  function Word(mem: Memory, s: Slot): bv32 { if s in mem then mem[s] else 0 }

  predicate IsIndex(i: bv32) { i < 0x400 }

  predicate IsPageNumber(v: bv32) { v < FRAMES }

  /** The flags of a directory entry: present, writable and user, and no other. */
  predicate FullRights(e: bv32) { FlagsOf(e) == PTE_P | PTE_W | PTE_U }

  /** Flags of a translation: writing and user access need the right in both entries. */
  function Rights(pde: bv32, pte: bv32): bv32 { (pte & FLAGS) & (pde | !(PTE_W | PTE_U)) }

  function FlagsOf(e: bv32): bv32 { e & FLAGS }

  lemma RightsOfFull(pde: bv32, pte: bv32)
    requires FullRights(pde)
    ensures Rights(pde, pte) == FlagsOf(pte)
  {
  }

  /** The hardware's translation of page number `v` under directory `d`. */
  function Walk(mem: Memory, d: Frame, v: bv32): Option<Mapping> {
    var pde := Word(mem, Slot(d, DirIndex(v)));
    if !Present(pde) then None else
    var pte := Word(mem, Slot(FrameOf(pde), TabIndex(v)));
    if !Present(pte) then None else Some(Mapping(FrameOf(pte), Rights(pde, pte)))
  }

  function Lookup(space: Space, k: Key): Option<Mapping> { if k in space then Some(space[k]) else None }

  /** The tables translate exactly as the address space says. */
  ghost predicate Refines(mem: Memory, dirs: set<Frame>, space: Space) {
    && (forall d, v :: d in dirs && IsPageNumber(v) ==> Walk(mem, d, v) == Lookup(space, Key(d, v)))
    && (forall k :: k in space ==> k.dir in dirs && IsPageNumber(k.vpn))
  }

  /** Every present directory entry has its own table. */
  ghost predicate TablesOk(mem: Memory, dirs: set<Frame>, tables: set<Frame>) {
    && dirs !! tables
    && (forall d, i :: d in dirs && IsIndex(i) && Present(Word(mem, Slot(d, i))) ==>
          FrameOf(Word(mem, Slot(d, i))) in tables && FullRights(Word(mem, Slot(d, i))))
    && (forall d, i, d', i' :: d in dirs && IsIndex(i) && d' in dirs && IsIndex(i')
          && Present(Word(mem, Slot(d, i))) && Present(Word(mem, Slot(d', i')))
          && FrameOf(Word(mem, Slot(d, i))) == FrameOf(Word(mem, Slot(d', i')))
          ==> d == d' && i == i')
  }

  /** What one page-table entry says about its key. */
  function PutEntry(space: Space, k: Key, e: bv32): Space {
    if Present(e) then space[k := Mapping(FrameOf(e), FlagsOf(e))] else space - {k}
  }

  ghost predicate SameDirWords(mem: Memory, t: Memory, dirs: set<Frame>) {
    forall d, i :: d in dirs ==> Word(t, Slot(d, i)) == Word(mem, Slot(d, i))
  }

  lemma TablesSame(mem: Memory, t: Memory, dirs: set<Frame>, tables: set<Frame>)
    requires TablesOk(mem, dirs, tables) && SameDirWords(mem, t, dirs)
    ensures TablesOk(t, dirs, tables)
  {
    hide Present, FrameOf, FullRights, IsIndex, Word;
  }

  /** Two present directory entries with one table are the same entry. */
  lemma OneOwner(mem: Memory, dirs: set<Frame>, tables: set<Frame>, d: Frame, i: bv32, d': Frame, i': bv32)
    requires TablesOk(mem, dirs, tables) && d in dirs && d' in dirs && IsIndex(i) && IsIndex(i')
    requires Present(Word(mem, Slot(d, i))) && Present(Word(mem, Slot(d', i')))
    ensures FrameOf(Word(mem, Slot(d, i))) in tables && FullRights(Word(mem, Slot(d, i)))
    ensures FrameOf(Word(mem, Slot(d, i))) == FrameOf(Word(mem, Slot(d', i'))) ==> d == d' && i == i'
  {
    hide Present, FrameOf, FullRights, IsIndex, Word;
  }

  /** The page-table slot of page number `v`. */
  function PteSlot(mem: Memory, d: Frame, v: bv32): Slot {
    Slot(FrameOf(Word(mem, Slot(d, DirIndex(v)))), TabIndex(v))
  }

  lemma WalkAfterWrite(mem: Memory, dirs: set<Frame>, tables: set<Frame>, d: Frame, v: bv32, e: bv32, d': Frame,
      w: bv32)
    requires TablesOk(mem, dirs, tables) && d in dirs && IsPageNumber(v) && d' in dirs && IsPageNumber(w)
    requires Present(Word(mem, Slot(d, DirIndex(v))))
    ensures Walk(mem[PteSlot(mem, d, v) := e], d', w) ==
      if d' == d && w == v then (if Present(e) then Some(Mapping(FrameOf(e), FlagsOf(e))) else None)
      else Walk(mem, d', w)
  {
    hide Present, FrameOf, FullRights, Rights, FlagsOf, DirIndex, TabIndex, IsIndex, IsPageNumber, TablesOk,
      Word, PteSlot;
    var pde' := Word(mem, Slot(d', DirIndex(w)));
    IndicesOk(w);
    WriteKeepsDirs(mem, dirs, tables, d, v, e);
    if Present(pde') {
      OneOwner(mem, dirs, tables, d', DirIndex(w), d', DirIndex(w));
      RightsOfFull(pde', e);
      OtherEntry(mem, dirs, tables, d, v, e, d', w);
    }
  }

  /** The write reaches the entry of another page number or directory in no case. */
  lemma OtherEntry(mem: Memory, dirs: set<Frame>, tables: set<Frame>, d: Frame, v: bv32, e: bv32, d': Frame, w: bv32)
    requires TablesOk(mem, dirs, tables) && d in dirs && IsPageNumber(v) && d' in dirs && IsPageNumber(w)
    requires Present(Word(mem, Slot(d, DirIndex(v)))) && Present(Word(mem, Slot(d', DirIndex(w))))
    ensures Word(mem[PteSlot(mem, d, v) := e], Slot(FrameOf(Word(mem, Slot(d', DirIndex(w)))), TabIndex(w)))
      == if d' == d && w == v then e else Word(mem, Slot(FrameOf(Word(mem, Slot(d', DirIndex(w)))), TabIndex(w)))
  {
    hide Present, FrameOf, FullRights, DirIndex, TabIndex, IsIndex, IsPageNumber, TablesOk;
    IndicesOk(v);
    IndicesOk(w);
    OneOwner(mem, dirs, tables, d, DirIndex(v), d', DirIndex(w));
    if DirIndex(v) == DirIndex(w) && TabIndex(v) == TabIndex(w) { SameIndices(v, w); }
  }

  lemma WriteKeepsDirs(mem: Memory, dirs: set<Frame>, tables: set<Frame>, d: Frame, v: bv32, e: bv32)
    requires TablesOk(mem, dirs, tables) && d in dirs && IsPageNumber(v)
    requires Present(Word(mem, Slot(d, DirIndex(v))))
    ensures SameDirWords(mem, mem[PteSlot(mem, d, v) := e], dirs)
    ensures TablesOk(mem[PteSlot(mem, d, v) := e], dirs, tables)
  {
    hide Present, FrameOf, FullRights, DirIndex, TabIndex, IsIndex, IsPageNumber, TablesOk;
    IndicesOk(v);
    OneOwner(mem, dirs, tables, d, DirIndex(v), d, DirIndex(v));
    DirsNotTables(mem, dirs, tables);
    TablesSame(mem, mem[PteSlot(mem, d, v) := e], dirs, tables);
  }

  lemma WriteKeepsSlot(mem: Memory, dirs: set<Frame>, tables: set<Frame>, d: Frame, v: bv32, e: bv32)
    requires TablesOk(mem, dirs, tables) && d in dirs && IsPageNumber(v)
    requires Present(Word(mem, Slot(d, DirIndex(v))))
    ensures var t := mem[PteSlot(mem, d, v) := e];
      Word(t, Slot(d, DirIndex(v))) == Word(mem, Slot(d, DirIndex(v))) && PteSlot(t, d, v) == PteSlot(mem, d, v)
  {
    hide Present, DirIndex, TabIndex, IsPageNumber, TablesOk;
    WriteKeepsDirs(mem, dirs, tables, d, v, e);
  }

  lemma DirsNotTables(mem: Memory, dirs: set<Frame>, tables: set<Frame>)
    requires TablesOk(mem, dirs, tables)
    ensures dirs !! tables
  {
  }

  /** Writing one page-table entry changes exactly one translation. */
  lemma WriteEntry(mem: Memory, dirs: set<Frame>, tables: set<Frame>, space: Space, d: Frame, v: bv32, e: bv32)
    requires TablesOk(mem, dirs, tables) && Refines(mem, dirs, space) && d in dirs && IsPageNumber(v)
    requires Present(Word(mem, Slot(d, DirIndex(v))))
    ensures TablesOk(mem[PteSlot(mem, d, v) := e], dirs, tables)
    ensures Refines(mem[PteSlot(mem, d, v) := e], dirs, PutEntry(space, Key(d, v), e))
  {
    hide Present, FrameOf, FlagsOf, IsPageNumber, TablesOk, Walk, Word, PteSlot, DirIndex;
    WriteKeepsDirs(mem, dirs, tables, d, v, e);
    forall d', w | d' in dirs && IsPageNumber(w)
      ensures Walk(mem[PteSlot(mem, d, v) := e], d', w) == Lookup(PutEntry(space, Key(d, v), e), Key(d', w))
    {
      WalkAfterWrite(mem, dirs, tables, d, v, e, d', w);
      assert Walk(mem, d', w) == Lookup(space, Key(d', w));
    }
  }

  lemma IndicesOk(v: bv32)
    requires IsPageNumber(v)
    ensures IsIndex(DirIndex(v)) && IsIndex(TabIndex(v)) && v < FRAMES
  {
  }

  // ------------------------------------------------------------------ a new page table

  /** memset(KADDR(pa), 0, PGSIZE) */
  function Zeroed(mem: Memory, frame: Frame): Memory { map s | s in mem && s.frame != frame :: mem[s] }

  function MakePde(frame: Frame): bv32 { Page2pa(frame) | PTE_U | PTE_W | PTE_P }

  lemma PdeNumber(frame: Frame)
    requires IsPageNumber(frame.ppn)
    ensures FrameOf(MakePde(frame)).ppn == frame.ppn
  {
  }

  lemma PdeRights(frame: Frame)
    ensures Present(MakePde(frame)) && FullRights(MakePde(frame))
  {
  }

  lemma ZeroAbsent()
    ensures !Present(0)
  {
  }

  function WithTable(mem: Memory, d: Frame, i: bv32, frame: Frame): Memory {
    Zeroed(mem, frame)[Slot(d, i) := MakePde(frame)]
  }

  lemma WordWithTable(mem: Memory, d: Frame, i: bv32, frame: Frame, s: Slot)
    ensures Word(WithTable(mem, d, i, frame), s) ==
      if s == Slot(d, i) then MakePde(frame) else if s.frame == frame then 0 else Word(mem, s)
  {
    hide MakePde;
  }

  lemma AddTableOk(mem: Memory, dirs: set<Frame>, tables: set<Frame>, d: Frame, i: bv32, frame: Frame)
    requires TablesOk(mem, dirs, tables) && d in dirs && IsIndex(i) && IsPageNumber(frame.ppn)
    requires frame !in tables && frame !in dirs && !Present(Word(mem, Slot(d, i)))
    ensures TablesOk(WithTable(mem, d, i, frame), dirs, tables + {frame})
  {
    hide Present, FrameOf, FullRights, IsIndex, IsPageNumber, MakePde, WithTable, Word;
    PdeNumber(frame);
    PdeRights(frame);
    SameFrame(FrameOf(MakePde(frame)), frame);
    ZeroAbsent();
    forall d', i' | d' in dirs
      ensures Word(WithTable(mem, d, i, frame), Slot(d', i')) ==
        if d' == d && i' == i then MakePde(frame) else Word(mem, Slot(d', i'))
    {
      WordWithTable(mem, d, i, frame, Slot(d', i'));
    }
  }

  /** A new, empty table changes no translation. */
  lemma AddTable(mem: Memory, dirs: set<Frame>, tables: set<Frame>, space: Space, d: Frame, i: bv32, frame: Frame)
    requires TablesOk(mem, dirs, tables) && Refines(mem, dirs, space) && d in dirs && IsIndex(i)
        && IsPageNumber(frame.ppn)
    requires frame !in tables && frame !in dirs && !Present(Word(mem, Slot(d, i)))
    ensures TablesOk(WithTable(mem, d, i, frame), dirs, tables + {frame})
    ensures Refines(WithTable(mem, d, i, frame), dirs, space)
  {
    hide Present, FrameOf, IsIndex, IsPageNumber, TablesOk, Walk, Word, WithTable;
    AddTableOk(mem, dirs, tables, d, i, frame);
    forall d', w | d' in dirs && IsPageNumber(w)
      ensures Walk(WithTable(mem, d, i, frame), d', w) == Lookup(space, Key(d', w))
    {
      WalkWithTable(mem, dirs, tables, d, i, frame, d', w);
      assert Walk(mem, d', w) == Lookup(space, Key(d', w));
    }
  }

  lemma WalkWithTable(mem: Memory, dirs: set<Frame>, tables: set<Frame>, d: Frame, i: bv32, frame: Frame, d': Frame,
      w: bv32)
    requires TablesOk(mem, dirs, tables) && d in dirs && IsIndex(i) && IsPageNumber(frame.ppn)
    requires frame !in tables && frame !in dirs && !Present(Word(mem, Slot(d, i)))
    requires d' in dirs && IsPageNumber(w)
    ensures Walk(WithTable(mem, d, i, frame), d', w) == Walk(mem, d', w)
  {
    hide Present, FrameOf, FullRights, Rights, IsIndex, IsPageNumber, MakePde, WithTable, Word, TablesOk, DirIndex,
      TabIndex;
    var t := WithTable(mem, d, i, frame);
    var pde := Word(mem, Slot(d', DirIndex(w)));
    PdeNumber(frame);
    PdeRights(frame);
    SameFrame(FrameOf(MakePde(frame)), frame);
    ZeroAbsent();
    IndicesOk(w);
    DirsNotTables(mem, dirs, tables);
    WordWithTable(mem, d, i, frame, Slot(d', DirIndex(w)));
    WordWithTable(mem, d, i, frame, Slot(FrameOf(pde), TabIndex(w)));
    WordWithTable(mem, d, i, frame, Slot(frame, TabIndex(w)));
    if Present(pde) { OneOwner(mem, dirs, tables, d', DirIndex(w), d', DirIndex(w)); }
  }

  // ------------------------------------------------------------------ reference counts

  /** How many translations name page `p`. */
  ghost function Count(space: Space, p: Frame): nat {
    |set k | k in space && space[k].page == p|
  }

  lemma CountErase(space: Space, k: Key, p: Frame)
    requires k in space
    ensures Count(space, p) == Count(space - {k}, p) + if space[k].page == p then 1 else 0
  {
    var a := set j | j in space && space[j].page == p;
    var b := set j | j in space - {k} && (space - {k})[j].page == p;
    if space[k].page == p { assert a == b + {k}; } else { assert a == b; }
  }

  lemma CountPut(space: Space, k: Key, m: Mapping, p: Frame)
    ensures Count(space[k := m], p) == Count(space - {k}, p) + if m.page == p then 1 else 0
  {
    CountErase(space[k := m], k, p);
    assert space[k := m] - {k} == space - {k};
  }

  lemma CountInserted(space: Space, k: Key, m: Mapping, p: Frame)
    ensures Count(space[k := m], p) + (if k in space && space[k].page == p then 1 else 0) ==
      Count(space, p) + (if m.page == p then 1 else 0)
  {
    hide Count;
    CountPut(space, k, m, p);
    if k in space { CountErase(space, k, p); } else { assert space - {k} == space; }
  }

  lemma CountZero(space: Space, p: Frame)
    ensures Count(space, p) == 0 <==> forall k :: k in space ==> space[k].page != p
  {
    var a := set j | j in space && space[j].page == p;
    if k :| k in space && space[k].page == p { assert k in a; }
  }

  // ------------------------------------------------------------------ the state of the memory manager

  predicate InMemory(npage: bv32, p: Frame) { p.ppn < npage <= FRAMES }

  /** Directories, tables, free pages and mapped pages are different pages of memory. */
  ghost predicate FramesOk(npage: bv32, dirs: set<Frame>, tables: set<Frame>, free: set<Frame>, space: Space) {
    && dirs !! tables && dirs !! free && tables !! free
    && (forall p :: p in dirs || p in tables || p in free ==> InMemory(npage, p))
    && (forall k :: k in space ==> DataPage(npage, dirs, tables, free, space[k].page))
  }

  /** A page clients may map. */
  ghost predicate DataPage(npage: bv32, dirs: set<Frame>, tables: set<Frame>, free: set<Frame>, p: Frame) {
    InMemory(npage, p) && p !in dirs && p !in tables && p !in free
  }

  function RefOf(ref: map<Frame, int>, p: Frame): int { if p in ref then ref[p] else 0 }

  /** The reference count of every page that is no table counts the translations naming it. */
  ghost predicate Counted(dirs: set<Frame>, tables: set<Frame>, ref: map<Frame, int>, space: Space) {
    forall p :: p !in dirs && p !in tables ==> RefOf(ref, p) == Count(space, p)
  }

  /** No cached translation of the current directory contradicts the address space, except perhaps at `stale`. */
  ghost predicate TlbOk(tlb: map<Key, Mapping>, cr3: Frame, space: Space, stale: set<Key>) {
    forall k :: k in tlb ==> k.dir == cr3 && (k !in stale ==> Lookup(space, k) == Some(tlb[k]))
  }

  lemma NumberOk(la: bv32)
    ensures IsPageNumber(PPN(la))
  {
  }

  lemma FreeNotTables(npage: bv32, dirs: set<Frame>, tables: set<Frame>, free: set<Frame>, space: Space)
    requires FramesOk(npage, dirs, tables, free, space)
    ensures tables !! free
  {
  }

  /** The directory entries that name table `t`. */
  ghost function Naming(mem: Memory, dirs: set<Frame>, t: Frame): set<Slot> {
    set s | s in mem && s.frame in dirs && IsIndex(s.index) && Present(mem[s]) && FrameOf(mem[s]) == t
  }

  /** Every table is in use, and its reference count is the number of directory entries naming it. */
  ghost predicate TablesCounted(mem: Memory, dirs: set<Frame>, tables: set<Frame>, ref: map<Frame, int>) {
    forall t :: t in tables ==> Naming(mem, dirs, t) != {} && RefOf(ref, t) == |Naming(mem, dirs, t)|
  }

  lemma NoneNames(mem: Memory, dirs: set<Frame>, tables: set<Frame>, t: Frame)
    requires TablesOk(mem, dirs, tables) && t !in tables
    ensures Naming(mem, dirs, t) == {}
  {
    hide Present, FrameOf, FullRights, IsIndex;
  }

  /** So the count of a table is 1. */
  lemma TableCountIsOne(mem: Memory, dirs: set<Frame>, tables: set<Frame>, ref: map<Frame, int>, t: Frame)
    requires TablesOk(mem, dirs, tables) && TablesCounted(mem, dirs, tables, ref) && t in tables
    ensures RefOf(ref, t) == 1
  {
    hide Present, FrameOf, FullRights, IsIndex;
    var s :| s in Naming(mem, dirs, t);
    assert Naming(mem, dirs, t) == {s};
  }

  lemma SameNaming(mem: Memory, mem': Memory, dirs: set<Frame>, t: Frame)
    requires SameDirWords(mem, mem', dirs)
    ensures Naming(mem', dirs, t) == Naming(mem, dirs, t)
  {
    hide Present, FrameOf, IsIndex;
    ZeroAbsent();
    forall s ensures s in Naming(mem, dirs, t) <==> s in Naming(mem', dirs, t) {
      if s.frame in dirs { assert Word(mem, Slot(s.frame, s.index)) == Word(mem', Slot(s.frame, s.index)); }
    }
  }

  /** Writing a page-table entry leaves the counts of the tables right. */
  lemma WriteCounted(mem: Memory, dirs: set<Frame>, tables: set<Frame>, ref: map<Frame, int>, ref': map<Frame, int>,
      d: Frame, v: bv32, e: bv32)
    requires TablesOk(mem, dirs, tables) && d in dirs && IsPageNumber(v) && Present(Word(mem, Slot(d, DirIndex(v))))
    requires TablesCounted(mem, dirs, tables, ref) && forall t :: t in tables ==> RefOf(ref', t) == RefOf(ref, t)
    ensures TablesCounted(mem[PteSlot(mem, d, v) := e], dirs, tables, ref')
  {
    hide Present, TablesOk, PteSlot, Word, DirIndex, IsPageNumber, Naming, RefOf;
    WriteKeepsDirs(mem, dirs, tables, d, v, e);
    forall t | t in tables ensures Naming(mem[PteSlot(mem, d, v) := e], dirs, t) == Naming(mem, dirs, t) {
      SameNaming(mem, mem[PteSlot(mem, d, v) := e], dirs, t);
    }
  }

  /** The one entry written names the new table; those of the other tables stay as they are. */
  lemma AddTableCounted(mem: Memory, dirs: set<Frame>, tables: set<Frame>, ref: map<Frame, int>, d: Frame, i: bv32,
      frame: Frame)
    requires TablesOk(mem, dirs, tables) && TablesCounted(mem, dirs, tables, ref)
    requires d in dirs && IsIndex(i) && IsPageNumber(frame.ppn) && !Present(Word(mem, Slot(d, i)))
    requires frame !in tables && frame !in dirs
    ensures TablesCounted(WithTable(mem, d, i, frame), dirs, tables + {frame}, ref[frame := 1])
  {
    hide Naming, TablesOk, Present, IsIndex, IsPageNumber, WithTable, Word;
    NoneNames(mem, dirs, tables, frame);
    forall t | t in tables + {frame}
      ensures Naming(WithTable(mem, d, i, frame), dirs, t) ==
        if t == frame then {Slot(d, i)} else Naming(mem, dirs, t)
    {
      NamingWithTable(mem, dirs, d, i, frame, t);
      if t == frame { assert Naming(mem, dirs, frame) + {Slot(d, i)} == {Slot(d, i)}; }
    }
  }

  lemma NamingWithTable(mem: Memory, dirs: set<Frame>, d: Frame, i: bv32, frame: Frame, t: Frame)
    requires d in dirs && IsIndex(i) && IsPageNumber(frame.ppn) && !Present(Word(mem, Slot(d, i))) && frame !in dirs
    ensures Naming(WithTable(mem, d, i, frame), dirs, t) ==
      if t == frame then Naming(mem, dirs, t) + {Slot(d, i)} else Naming(mem, dirs, t)
  {
    hide Present, FrameOf, IsIndex, IsPageNumber, MakePde, FullRights;
    PdeNumber(frame);
    PdeRights(frame);
    SameFrame(FrameOf(MakePde(frame)), frame);
  }

  /** A free page may become a table: nothing is mapped to it and its count is not looked at any more. */
  lemma NewTable(npage: bv32, dirs: set<Frame>, tables: set<Frame>, free: set<Frame>, space: Space,
      ref: map<Frame, int>, t: Frame)
    requires FramesOk(npage, dirs, tables, free, space) && Counted(dirs, tables, ref, space) && t in free
    ensures t !in dirs && t !in tables && IsPageNumber(t.ppn)
    ensures FramesOk(npage, dirs, tables + {t}, free - {t}, space) && Counted(dirs, tables + {t}, ref[t := 1], space)
  {
    hide Count;
  }

  lemma TlbAfterPut(tlb: map<Key, Mapping>, cr3: Frame, space: Space, k: Key, e: bv32)
    requires TlbOk(tlb, cr3, space, {})
    ensures TlbOk(tlb, cr3, PutEntry(space, k, e), {k})
  {
    hide Present, FrameOf, FlagsOf;
  }

  /** The entry of a page number in a present table is what the address space says of it. */
  lemma EntryIs(mem: Memory, dirs: set<Frame>, tables: set<Frame>, space: Space, d: Frame, la: bv32)
    requires TablesOk(mem, dirs, tables) && Refines(mem, dirs, space) && d in dirs
    requires Present(Word(mem, Slot(d, PDX(la))))
    ensures PDX(la) == DirIndex(PPN(la)) && IsPageNumber(PPN(la)) && !Present(0)
    ensures var e := Word(mem, PteSlot(mem, d, PPN(la)));
      Lookup(space, Key(d, PPN(la))) == if Present(e) then Some(Mapping(FrameOf(e), FlagsOf(e))) else None
  {
    hide Present, FrameOf, FlagsOf, Word, PPN, PDX, TablesOk, DirIndex, TabIndex, IsPageNumber, IsIndex, FullRights,
      Rights;
    PageNumberParts(la);
    NumberOk(la);
    IndicesOk(PPN(la));
    ZeroAbsent();
    OneOwner(mem, dirs, tables, d, PDX(la), d, PDX(la));
    RightsOfFull(Word(mem, Slot(d, PDX(la))), Word(mem, PteSlot(mem, d, PPN(la))));
    assert Walk(mem, d, PPN(la)) == Lookup(space, Key(d, PPN(la)));
  }

  lemma MappedNotFree(npage: bv32, dirs: set<Frame>, tables: set<Frame>, free: set<Frame>, space: Space, k: Key)
    requires FramesOk(npage, dirs, tables, free, space) && k in space
    ensures DataPage(npage, dirs, tables, free, space[k].page)
  {
  }

  /** Page `p` was named by some translation before and is named by none after. */
  ghost predicate Unmapped(before: Space, after: Space, p: Frame) {
    Count(before, p) > 0 && Count(after, p) == 0
  }

  lemma NoTable(mem: Memory, dirs: set<Frame>, space: Space, d: Frame, la: bv32)
    requires Refines(mem, dirs, space) && d in dirs && !Present(Word(mem, Slot(d, PDX(la))))
    ensures Key(d, PPN(la)) !in space
  {
    hide Present, FrameOf, Word, PPN, PDX, DirIndex, TabIndex, IsPageNumber, Rights;
    PageNumberParts(la);
    NumberOk(la);
    assert Walk(mem, d, PPN(la)) == Lookup(space, Key(d, PPN(la)));
  }

  /** Bookkeeping of one erased translation. */
  ghost predicate RefsErased(ref: map<Frame, int>, ref': map<Frame, int>, free: set<Frame>, free': set<Frame>,
      old_: Option<Mapping>) {
    match old_
    case None => ref' == ref && free' == free
    case Some(m) =>
      && RefOf(ref', m.page) == RefOf(ref, m.page) - 1
      && (forall p :: p != m.page ==> RefOf(ref', p) == RefOf(ref, p))
      && free' == (if RefOf(ref', m.page) == 0 then free + {m.page} else free)
  }

  /** `free'` gained exactly the pages that lost their last translation. */
  ghost predicate FreedExactly(free: set<Frame>, free': set<Frame>, before: Space, after: Space) {
    forall p :: p in free' <==> p in free || Unmapped(before, after, p)
  }

  lemma StillData(npage: bv32, dirs: set<Frame>, tables: set<Frame>, tables': set<Frame>, free: set<Frame>,
      free': set<Frame>, p: Frame)
    requires DataPage(npage, dirs, tables, free, p) && tables' - tables <= free && free' == free - tables'
    ensures DataPage(npage, dirs, tables', free', p)
  {
  }

  lemma DataNumber(npage: bv32, dirs: set<Frame>, tables: set<Frame>, free: set<Frame>, p: Frame)
    requires DataPage(npage, dirs, tables, free, p)
    ensures p.ppn < FRAMES
  {
  }

  lemma NothingErased(ref: map<Frame, int>, free: set<Frame>, space: Space, k: Key)
    requires k !in space
    ensures RefsErased(ref, ref, free, free, Lookup(space, k))
  {
  }

  lemma ErasedOk(npage: bv32, dirs: set<Frame>, tables: set<Frame>, free: set<Frame>, free': set<Frame>,
                 ref: map<Frame, int>, ref': map<Frame, int>, space: Space, k: Key)
    requires FramesOk(npage, dirs, tables, free, space) && Counted(dirs, tables, ref, space)
    requires RefsErased(ref, ref', free, free', Lookup(space, k))
    ensures FramesOk(npage, dirs, tables, free', space - {k}) && Counted(dirs, tables, ref', space - {k})
    ensures FreedExactly(free, free', space, space - {k})
  {
    hide Count;
    var after := space - {k};
    forall p ensures Count(space, p) == Count(after, p) + if k in space && space[k].page == p then 1 else 0 {
      if k in space { CountErase(space, k, p); } else { assert after == space; }
    }
    forall j | j in after ensures space[j].page !in free' {
      CountZero(after, space[j].page);
    }
  }

  lemma InsertedOk(npage: bv32, dirs: set<Frame>, tables: set<Frame>, free: set<Frame>, free': set<Frame>,
                   ref: map<Frame, int>, ref': map<Frame, int>, space: Space, k: Key, m: Mapping)
    requires FramesOk(npage, dirs, tables, free, space) && Counted(dirs, tables, ref, space)
    requires DataPage(npage, dirs, tables, free, m.page)
    requires RefsInserted(ref, ref', free, free', Lookup(space, k), m)
    ensures FramesOk(npage, dirs, tables, free', space[k := m]) && Counted(dirs, tables, ref', space[k := m])
    ensures FreedExactly(free, free', space, space[k := m])
  {
    hide Count;
    var after := space[k := m];
    forall p
      ensures Count(after, p) + (if k in space && space[k].page == p then 1 else 0) ==
        Count(space, p) + (if m.page == p then 1 else 0)
    {
      CountInserted(space, k, m, p);
    }
    forall j | j in after ensures after[j].page !in free' {
      CountZero(after, after[j].page);
    }
  }

  /** How `ref` becomes `ref'` when one translation is set to `m`. */
  ghost predicate RefsInserted(ref: map<Frame, int>, ref': map<Frame, int>, free: set<Frame>, free': set<Frame>,
      old_: Option<Mapping>, m: Mapping) {
    if old_.Some? && old_.value.page == m.page
    then free' == free && forall p :: RefOf(ref', p) == RefOf(ref, p)
    else RefsErased(ref[m.page := RefOf(ref, m.page) + 1], ref', free, free', old_)
  }

  lemma SamePageAgain(ref: map<Frame, int>, free: set<Frame>, old_: Option<Mapping>, m: Mapping)
    requires old_.Some? && old_.value.page == m.page
    ensures var more := ref[m.page := RefOf(ref, m.page) + 1];
      RefsInserted(ref, more[m.page := RefOf(more, m.page) - 1], free, free, old_, m)
  {
  }

  /** Neither touches the counts of the tables. */
  lemma TableRefsErased(npage: bv32, dirs: set<Frame>, tables: set<Frame>, free: set<Frame>, free': set<Frame>,
      ref: map<Frame, int>, ref': map<Frame, int>, space: Space, k: Key)
    requires FramesOk(npage, dirs, tables, free, space) && RefsErased(ref, ref', free, free', Lookup(space, k))
    ensures forall t :: t in tables ==> RefOf(ref', t) == RefOf(ref, t)
  {
    hide RefOf;
    if k in space { MappedNotFree(npage, dirs, tables, free, space, k); }
  }

  lemma TableRefsInserted(npage: bv32, dirs: set<Frame>, tables: set<Frame>, free: set<Frame>, free': set<Frame>,
      ref: map<Frame, int>, ref': map<Frame, int>, space: Space, k: Key, m: Mapping)
    requires FramesOk(npage, dirs, tables, free, space) && DataPage(npage, dirs, tables, free, m.page)
    requires RefsInserted(ref, ref', free, free', Lookup(space, k), m)
    ensures forall t :: t in tables ==> RefOf(ref', t) == RefOf(ref, t)
  {
    if !(k in space && space[k].page == m.page) {
      TableRefsErased(npage, dirs, tables, free, free', ref[m.page := RefOf(ref, m.page) + 1], ref', space, k);
    }
  }

  class Paging {
    const npage: bv32
    var mem: Memory
    var ref: map<Frame, int>
    var free: set<Frame>
    var cr3: Frame
    var tlb: map<Key, Mapping>
    ghost var dirs: set<Frame>
    ghost var tables: set<Frame>
    ghost var space: Space

    ghost predicate Valid()
      reads this
    {
      && TablesOk(mem, dirs, tables) && Refines(mem, dirs, space) && cr3 in dirs
      && FramesOk(npage, dirs, tables, free, space)
      && Counted(dirs, tables, ref, space)
      && TablesCounted(mem, dirs, tables, ref)
      && TlbOk(tlb, cr3, space, {})
    }

    /** One empty directory, its frame in use; every page in `pages` is free. */
    constructor (npage: bv32, dir: Frame, pages: set<Frame>)
      requires npage <= FRAMES && dir.ppn < npage && dir !in pages && forall p :: p in pages ==> p.ppn < npage
      ensures Valid() && space == map[] && free == pages && cr3 == dir && this.npage == npage && dirs == {dir}
    {
      hide Present, FullRights, FrameOf, IsIndex, IsPageNumber, DirIndex, TabIndex, Rights;
      ZeroAbsent();
      this.npage := npage;
      mem, ref, free, cr3, tlb := map[], map[], pages, dir, map[];
      dirs, tables, space := {dir}, {}, map[];
    }

    /** alloc_page: any free page, or none if there is none. */
    method AllocPage() returns (r: Option<Frame>)
      modifies `free
      ensures r.None? <==> old(free) == {}
      ensures r.None? ==> free == old(free)
      ensures r.Some? ==> r.value in old(free) && free == old(free) - {r.value}
    {
      if free == {} { return None; }
      var p :| p in free;
      free := free - {p};
      r := Some(p);
    }

    /** free_page */
    method FreePage(p: Frame)
      requires p !in free
      modifies `free, `ref
      ensures free == old(free) + {p} && ref == old(ref)[p := 0]
    {
      ref := ref[p := 0];
      free := free + {p};
    }

    /** At any moment the processor may cache translations of the current directory, or drop some. */
    method HardwareFill(ghost stale: set<Key>)
      requires Refines(mem, dirs, space) && cr3 in dirs && TlbOk(tlb, cr3, space, stale)
      modifies `tlb
      ensures TlbOk(tlb, cr3, space, stale)
    {
      hide Walk, IsPageNumber;
      var kept: set<Key> := *;
      var met: set<Key> := *;
      var cached := map k | k in met && k.dir == cr3 && IsPageNumber(k.vpn) && Walk(mem, cr3, k.vpn).Some? ::
        Walk(mem, cr3, k.vpn).value;
      tlb := (map k | k in kept && k in tlb :: tlb[k]) + cached;
    }

    /** tlb_invalidate: drop the page's cached translation if the edited directory is the current one. */
    method TlbInvalidate(d: Frame, la: bv32)
      requires TlbOk(tlb, cr3, space, {Key(d, PPN(la))})
      modifies `tlb
      ensures TlbOk(tlb, cr3, space, {})
    {
      hide PPN;
      if cr3 == d { tlb := tlb - {Key(d, PPN(la))}; }
    }

    /** get_pte: the page-table slot for `la`; with `create`, a missing table is allocated and cleared first. */
    method GetPte(d: Frame, la: bv32, create: bool) returns (r: Option<Slot>)
      requires Valid() && d in dirs
      modifies this
      ensures Valid() && space == old(space) && dirs == old(dirs) && cr3 == old(cr3) && tlb == old(tlb)
      ensures r.None? <==> !Present(old(Word(mem, Slot(d, PDX(la))))) && (!create || old(free) == {})
      ensures r.None? || !create ==> mem == old(mem) && ref == old(ref) && free == old(free) && tables == old(tables)
      ensures r.Some? ==> Present(Word(mem, Slot(d, PDX(la)))) && r.value == PteSlot(mem, d, PPN(la))
      ensures r.Some? ==> FullRights(Word(mem, Slot(d, PDX(la)))) && RefOf(ref, r.value.frame) == 1
      ensures r.Some? ==> tables == old(tables) + {r.value.frame}
      ensures r.Some? && !Present(old(Word(mem, Slot(d, PDX(la))))) ==>
        r.value.frame in old(free) && mem == WithTable(old(mem), d, PDX(la), r.value.frame)
      ensures Present(old(Word(mem, Slot(d, PDX(la))))) ==> mem == old(mem)
      ensures old(tables) <= tables && free == old(free) - tables && tables - old(tables) <= old(free)
      ensures forall p :: RefOf(ref, p) == if p in tables - old(tables) then 1 else RefOf(old(ref), p)
    {
      hide Present, FrameOf, FullRights, PDX, PTX, PPN, PTE_ADDR, DirIndex, TabIndex, PageNumber, IsIndex, IsPageNumber,
        MakePde, Word, Walk, TablesOk, Refines, Counted, TablesCounted, TlbOk, FramesOk;
      PageNumberParts(la);
      NumberOk(la);
      IndicesOk(PPN(la));
      assert free == free - tables by { FreeNotTables(npage, dirs, tables, free, space); }
      var pdep := Slot(d, PDX(la));
      if !Present(Word(mem, pdep)) {
        if !create { return None; }
        var page := AllocPage();
        if page.None? { return None; }
        var t := page.value;
        NewTable(npage, dirs, tables, old(free), space, ref, t);
        AddTableCounted(mem, dirs, tables, ref, d, PDX(la), t);
        AddTable(mem, dirs, tables, space, d, PDX(la), t);
        WordWithTable(mem, d, PDX(la), t, pdep);
        PdeNumber(t);
        PdeRights(t);
        SameFrame(FrameOf(MakePde(t)), t);
        ZeroAbsent();
        ref := ref[t := 1];
        tables := tables + {t};
        mem := Zeroed(mem, t);
        mem := mem[pdep := MakePde(t)];
      }
      r := Some(Slot(FrameOf(Word(mem, pdep)), PTX(la)));
      OneOwner(mem, dirs, tables, d, PDX(la), d, PDX(la));
      TableCountIsOne(mem, dirs, tables, ref, r.value.frame);
    }

    /** The tables, the address space and the cached translations agree. */
    ghost predicate Translates()
      reads this
    {
      TablesOk(mem, dirs, tables) && Refines(mem, dirs, space) && cr3 in dirs && TlbOk(tlb, cr3, space, {})
    }

    /** page_remove_pte: one reference less, the page freed at zero, the entry cleared, its cached
        translation dropped. The counts need not be right when it is called. */
    method PageRemovePte(d: Frame, la: bv32, ptep: Slot)
      requires Translates() && d in dirs && FramesOk(npage, dirs, tables, free, space)
      requires Present(Word(mem, Slot(d, PDX(la)))) && ptep == PteSlot(mem, d, PPN(la))
      modifies `mem, `ref, `free, `tlb, `space
      ensures Translates() && space == old(space) - {Key(d, PPN(la))}
      ensures Present(Word(mem, Slot(d, PDX(la)))) && ptep == PteSlot(mem, d, PPN(la))
      ensures RefsErased(old(ref), ref, old(free), free, Lookup(old(space), Key(d, PPN(la))))
      ensures mem == if Present(old(Word(mem, ptep))) then old(mem)[ptep := 0] else old(mem)
    {
      hide Present, FrameOf, FlagsOf, Word, Walk, PPN, PDX, TablesOk, Refines, TlbOk, FramesOk, IsPageNumber;
      ghost var k := Key(d, PPN(la));
      EntryIs(mem, dirs, tables, space, d, la);
      if Present(Word(mem, ptep)) {
        var page := FrameOf(Word(mem, ptep));
        MappedNotFree(npage, dirs, tables, free, space, k);
        ref := ref[page := RefOf(ref, page) - 1];
        if RefOf(ref, page) == 0 { FreePage(page); }
        HardwareFill({});
        WriteEntry(mem, dirs, tables, space, d, PPN(la), 0);
        WriteKeepsSlot(mem, dirs, tables, d, PPN(la), 0);
        TlbAfterPut(tlb, cr3, space, k, 0);
        mem := mem[ptep := 0];
        space := space - {k};
        HardwareFill({k});
        TlbInvalidate(d, la);
      }
    }

    /** page_remove: erases exactly one translation; its page is freed exactly when nothing names it any more. */
    method PageRemove(d: Frame, la: bv32)
      requires Valid() && d in dirs
      modifies this
      ensures Valid() && dirs == old(dirs) && tables == old(tables) && cr3 == old(cr3)
      ensures space == old(space) - {Key(d, PPN(la))}
      ensures FreedExactly(old(free), free, old(space), space)
    {
      hide Present, FrameOf, FlagsOf, Word, Walk, PPN, PDX, TablesOk, Refines, TlbOk, FramesOk, IsPageNumber, Counted,
        Count, RefsErased, FreedExactly, DirIndex, TabIndex, FullRights, PteSlot, Naming, RefOf;
      ghost var k := Key(d, PPN(la));
      var ptep := GetPte(d, la, false);
      if ptep.Some? {
        ghost var mem1, present := mem, Present(Word(mem, ptep.value));
        PageNumberParts(la);
        NumberOk(la);
        PageRemovePte(d, la, ptep.value);
        TableRefsErased(npage, dirs, tables, old(free), free, old(ref), ref, old(space), k);
        if present { WriteCounted(mem1, dirs, tables, old(ref), ref, d, PPN(la), 0); }
        ErasedOk(npage, dirs, tables, old(free), free, old(ref), ref, old(space), k);
      } else {
        NoTable(mem, dirs, space, d, la);
        NothingErased(ref, free, space, k);
        ErasedOk(npage, dirs, tables, free, free, ref, ref, space, k);
        assert space - {k} == space;
      }
    }

    /** get_page: the page the address space maps `la` to. */
    method GetPage(d: Frame, la: bv32) returns (r: Option<Frame>)
      requires Valid() && d in dirs
      modifies this
      ensures Valid() && space == old(space) && mem == old(mem) && ref == old(ref) && free == old(free)
          && tlb == old(tlb)
      ensures dirs == old(dirs) && tables == old(tables) && cr3 == old(cr3)
      ensures match Lookup(space, Key(d, PPN(la))) case None => r == None case Some(m) => r == Some(m.page)
    {
      hide Present, FrameOf, FlagsOf, Word, PPN, PDX, TablesOk, Refines, TlbOk, FramesOk, IsPageNumber, Counted;
      var ptep := GetPte(d, la, false);
      if ptep.None? {
        NoTable(mem, dirs, space, d, la);
        return None;
      }
      EntryIs(mem, dirs, tables, space, d, la);
      if !Present(Word(mem, ptep.value)) { return None; }
      r := Some(FrameOf(Word(mem, ptep.value)));
    }

    /** The last lines of page_insert: write the entry and drop the page's cached translation. */
    method SetPte(d: Frame, page: Frame, la: bv32, perm: bv32, ptep: Slot)
      requires Translates() && d in dirs && page.ppn < FRAMES && AmongBits(PPN(perm), page.ppn)
      requires Present(Word(mem, Slot(d, PDX(la)))) && ptep == PteSlot(mem, d, PPN(la))
      modifies `mem, `tlb, `space
      ensures Translates() && space == old(space)[Key(d, PPN(la)) := Mapping(page, FlagsOf(perm) | PTE_P)]
      ensures mem == old(mem)[ptep := MakePte(page, perm)]
    {
      hide Present, FrameOf, FlagsOf, Word, Walk, PPN, PDX, TablesOk, Refines, TlbOk, IsPageNumber, MakePte, PTE_ADDR,
        PteSlot;
      ghost var k := Key(d, PPN(la));
      EntryIs(mem, dirs, tables, space, d, la);
      HardwareFill({});
      MadePteIff(page, perm);
      MadeFlags(page, perm);
      SameFrame(FrameOf(MakePte(page, perm)), page);
      WriteEntry(mem, dirs, tables, space, d, PPN(la), MakePte(page, perm));
      TlbAfterPut(tlb, cr3, space, k, MakePte(page, perm));
      mem := mem[ptep := MakePte(page, perm)];
      space := space[k := Mapping(page, FlagsOf(perm) | PTE_P)];
      HardwareFill({k});
      TlbInvalidate(d, la);
    }

    /** page_insert, once the slot is found: one reference more, what was mapped there released, the entry written. */
    method MapAt(d: Frame, page: Frame, la: bv32, perm: bv32, ptep: Slot)
      requires Valid() && d in dirs && DataPage(npage, dirs, tables, free, page) && AmongBits(PPN(perm), page.ppn)
      requires Present(Word(mem, Slot(d, PDX(la)))) && ptep == PteSlot(mem, d, PPN(la))
      modifies `mem, `ref, `free, `tlb, `space
      ensures Valid() && space == old(space)[Key(d, PPN(la)) := Mapping(page, FlagsOf(perm) | PTE_P)]
      ensures FreedExactly(old(free), free, old(space), space)
    {
      hide Present, FrameOf, FlagsOf, Word, Walk, PPN, PDX, TablesOk, Refines, TlbOk, FramesOk, IsPageNumber, Counted,
        TablesCounted, Count, RefsErased, FreedExactly, MakePte, PTE_ADDR, DataPage, PteSlot, DirIndex, RefOf;
      ghost var k, m, mem1 := Key(d, PPN(la)), Mapping(page, FlagsOf(perm) | PTE_P), mem;
      DataNumber(npage, dirs, tables, free, page);
      EntryIs(mem, dirs, tables, space, d, la);
      ref := ref[page := RefOf(ref, page) + 1];
      if Present(Word(mem, ptep)) {
        if FrameOf(Word(mem, ptep)) == page {
          SamePageAgain(old(ref), free, Lookup(space, k), m);
          ref := ref[page := RefOf(ref, page) - 1];
        } else {
          PageRemovePte(d, la, ptep);
        }
      } else {
        NothingErased(ref, free, space, k);
      }
      SetPte(d, page, la, perm, ptep);
      assert space == old(space)[k := m];
      assert mem == mem1[ptep := MakePte(page, perm)];
      InsertedOk(npage, dirs, tables, old(free), free, old(ref), ref, old(space), k, m);
      TableRefsInserted(npage, dirs, tables, old(free), free, old(ref), ref, old(space), k, m);
      WriteCounted(mem1, dirs, tables, old(ref), ref, d, PPN(la), MakePte(page, perm));
    }

    /** page_insert: sets exactly one translation, or changes nothing when no table can be allocated. */
    method PageInsert(d: Frame, page: Frame, la: bv32, perm: bv32) returns (ok: bool)
      requires Valid() && d in dirs && DataPage(npage, dirs, tables, free, page) && AmongBits(PPN(perm), page.ppn)
      modifies this
      ensures Valid() && dirs == old(dirs) && cr3 == old(cr3)
      ensures ok <==> Present(old(Word(mem, Slot(d, PDX(la))))) || old(free) != {}
      ensures !ok ==> mem == old(mem) && ref == old(ref) && free == old(free) && tlb == old(tlb) && space == old(space)
      ensures ok ==> space == old(space)[Key(d, PPN(la)) := Mapping(page, FlagsOf(perm) | PTE_P)]
      ensures ok ==> FreedExactly(old(free) - tables, free, old(space), space)
      ensures old(tables) <= tables && tables - old(tables) <= old(free)
    {
      hide Present, FrameOf, FlagsOf, FullRights, Word, Walk, PPN, PDX, TablesOk, Refines, TlbOk, FramesOk, Counted,
        TablesCounted, Count, FreedExactly, DataPage, PteSlot, WithTable, RefOf;
      var slot := GetPte(d, la, true);
      if slot.None? { return false; }
      StillData(npage, dirs, old(tables), tables, old(free), free, page);
      MapAt(d, page, la, perm, slot.value);
      ok := true;
    }
  }
}
