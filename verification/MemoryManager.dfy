/** The physical memory manager and the page-table operations, updating memory in
    place. The free list lives in the free frames, the page tables in the table
    frames; ghost fields name both and the address space they add up to. */
module MemoryManager {
  import opened Basics
  import opened PageWords
  import opened Paging
  import opened PageRights

  /** A resolved address; the source ORs the frame and the offset into one word. */
  datatype Physical = Physical(frame: Word, offset: nat)

  datatype Op = Map(va: nat, physical: Word, flags: Word, user: bool) | Unmap(va: nat)

  /** What an operation does to the finite map of mapped pages. */
  function ApplyOp(pages: map<Page, Word>, op: Op): (r: map<Page, Word>)
  {
    match op
    case Map(va, physical, flags, _) => pages[PageOf(va) := Leaf(physical, flags)]
    case Unmap(va) => pages - {PageOf(va)}
  }

  function ApplyOps(pages: map<Page, Word>, ops: seq<Op>): (r: map<Page, Word>)
    decreases |ops|
  {
    if ops == [] then pages else ApplyOps(ApplyOp(pages, ops[0]), ops[1..])
  }

  /** The address that `unmap_and_free_page` hands to `free_page` is the mapped frame
      exactly if the virtual address is page-aligned and the flags leak no bit. */
  lemma FreedAddressIsTheFrameIff(physical: Word, flags: Word, va: nat)
    ensures Physical(Base(Leaf(physical, flags)), va % PAGE_SIZE) == Physical(Base(physical), 0)
            <==> va % PAGE_SIZE == 0 && flags & !LOW & !physical == 0
  {
    TranslationIsExactIff(physical, flags);
  }

  function Reversed(s: seq<Word>): (r: seq<Word>)
    ensures |r| == |s|
  {
    if s == [] then [] else Reversed(s[1..]) + [s[0]]
  }

  lemma {:induction false} ReversedSnoc(s: seq<Word>, x: Word)
    ensures Reversed(s + [x]) == [x] + Reversed(s)
  {
    if s == [] {
      assert [x][1..] == [];
    } else {
      assert (s + [x])[1..] == s[1..] + [x];
      ReversedSnoc(s[1..], x);
    }
  }

  lemma {:induction false} ReversedHas(s: seq<Word>, x: Word)
    ensures x in Reversed(s) <==> x in s
  {
    if s != [] {
      ReversedHas(s[1..], x);
    }
  }

  /** An address space with a single, zeroed root table. */
  lemma EmptyTree(m: Memory, root: Word)
    requires IsFrame(root) && forall i :: 0 <= i < ENTRIES ==> m(root, i) == 0
    ensures Tree(m, map[Pml4 := root]) && Represents(m, map[Pml4 := root], map[])
    ensures Canonical(map[Pml4 := root], map[])
  {
    assert !Present(0);
  }

  class Manager {
    var mem: Memory
    var head: Option<Word>
    var freePages: nat
    const root: Word

    ghost var free: seq<Word>           // the free list, in the order of delivery
    ghost var at: map<Node, Word>       // the page tables
    ghost var out: set<Word>            // frames handed out to callers
    ghost var pages: map<Page, Word>    // the mapped pages and their leaf words

    function HeadWord(): Word
      reads this
    {
      match head case None => 0 case Some(h) => h
    }

    ghost predicate Core()
      reads this
    {
      && Chain(mem, HeadWord(), free)
      && (head.Some? ==> head.value != 0)
      && freePages == |free|
      && Apart(free, at, out)
      && Tree(mem, at) && at[Pml4] == root
      && Represents(mem, at, pages)
    }

    ghost predicate Valid()
      reads this
    {
      Core() && Canonical(at, pages)
    }

    /** Frees the given frames one by one, takes the last one back as the root table
        and zeroes it. */
    constructor (frames: seq<Word>)
      requires frames != [] && forall f :: f in frames ==> IsFrame(f)
      requires forall i, j :: 0 <= i < j < |frames| ==> frames[i] != frames[j]
      ensures Valid() && pages == map[] && out == {}
      ensures root == frames[|frames| - 1] && free == Reversed(frames[..|frames| - 1])
    {
      hide IsFrame, Chain, Tree, Represents, Canonical;
      var n := |frames| - 1;
      var before, h := Seeded(frames[..n]);
      var r := frames[n];
      var m := Zeroed(before, r);
      forall f ensures f in Reversed(frames[..n]) <==> f in frames[..n] {
        ReversedHas(frames[..n], f);
      }
      ChainFrame(before, m, h, Reversed(frames[..n]));
      EmptyTree(m, r);
      mem, head, freePages, root := m, if h == 0 then None else Some(h), n, r;
      free, at, out, pages := Reversed(frames[..n]), map[Pml4 := r], {}, map[];
    }

    /** The seeding loop of the physical memory manager: `free_page` for each frame. */
    static method Seeded(frames: seq<Word>) returns (m: Memory, h: Word)
      requires forall f :: f in frames ==> IsFrame(f)
      requires forall i, j :: 0 <= i < j < |frames| ==> frames[i] != frames[j]
      ensures Chain(m, h, Reversed(frames)) && (frames == [] <==> h == 0)
    {
      hide IsFrame, Chain;
      m, h := (f, i) => 0, 0;
      NoFrames(m);
      var k := 0;
      while k < |frames|
        invariant 0 <= k <= |frames| && (k == 0 <==> h == 0) && Chain(m, h, Reversed(frames[..k]))
      {
        ReversedHas(frames[..k], frames[k]);
        ReversedSnoc(frames[..k], frames[k]);
        assert frames[..k + 1] == frames[..k] + [frames[k]];
        ChainPush(m, frames[k], h, Reversed(frames[..k]));
        FrameIsNotNull(frames[k]);
        m := Store(m, frames[k], 0, h);
        h := frames[k];
        k := k + 1;
      }
      assert frames[..k] == frames;
    }

    static method Zeroed(before: Memory, r: Word) returns (m: Memory)
      ensures forall g, j: nat :: m(g, j) == if g == r && 0 <= j < ENTRIES then 0 else before(g, j)
    {
      m := before;
      var i := 0;
      while i < ENTRIES
        invariant 0 <= i <= ENTRIES
        invariant forall g, j: nat :: m(g, j) == if g == r && 0 <= j < i then 0 else before(g, j)
      {
        m := Store(m, r, i, 0);
        i := i + 1;
      }
    }

    static lemma NoFrames(m: Memory)
      ensures Chain(m, 0, Reversed([]))
    {
    }

    // ------------------------------------------------------------ physical frames

    /** Writes the old head into word 0 of the frame and makes it the new head. */
    method PushFree(f: Word)
      requires Core() && Loose(f, free, at, out)
      modifies this`mem, this`head, this`freePages, this`free
      ensures Core() && free == [f] + old(free)
      ensures forall g, j: nat :: g != f ==> mem(g, j) == old(mem)(g, j)
    {
      hide Tree, Represents, IsFrame, Chain;
      ghost var before := mem;
      ChainPush(mem, f, HeadWord(), free);
      mem := Store(mem, f, 0, HeadWord());
      TableFrame(before, mem, at, pages);
      head := Some(f);
      freePages := freePages + 1;
      free := [f] + free;
      FrameIsNotNull(f);
    }

    /** Delivers the head and follows its link. */
    method PopFree() returns (f: Option<Word>)
      requires Core()
      modifies this`head, this`freePages, this`free
      ensures f.None? <==> old(free) == []
      ensures f.None? ==> Core() && free == old(free)
      ensures f.Some? ==> Core() && old(free) == [f.value] + free && Loose(f.value, free, at, out)
    {
      hide Tree, Represents;
      ChainFrames(mem, HeadWord(), free);
      if head.None? {
        return None;
      }
      f := head;
      var next := mem(head.value, 0);
      head := if next == 0 then None else Some(next);
      freePages := freePages - 1;
      free := free[1..];
    }

    /** `alloc_page`. */
    method AllocFrame() returns (f: Option<Word>)
      requires Valid()
      modifies this`head, this`freePages, this`free, this`out
      ensures Valid()
      ensures f.None? <==> old(free) == []
      ensures f.None? ==> free == old(free) && out == old(out)
      ensures f.Some? ==> old(free) == [f.value] + free && out == old(out) + {f.value} && f.value !in old(out)
    {
      hide Tree, Represents, Chain, Needed;
      f := PopFree();
      if f.Some? {
        out := out + {f.value};
      }
    }

    /** `free_page` for a frame that was handed out and not freed since. */
    method FreeFrame(f: Word)
      requires Valid() && f in out
      modifies this`mem, this`head, this`freePages, this`free, this`out
      ensures Valid() && free == [f] + old(free) && out == old(out) - {f}
      ensures forall g, j: nat :: g in out ==> mem(g, j) == old(mem)(g, j)
    {
      hide Tree, Represents, Chain, Needed;
      assert f !in free && f !in at.Values;
      out := out - {f};
      PushFree(f);
    }

    /** The owner of a frame may write anything into it. */
    method WriteData(f: Word, i: nat, w: Word)
      requires Valid() && f in out
      modifies this`mem
      ensures Valid()
    {
      hide Tree, Represents, Needed;
      ghost var before := mem;
      mem := Store(mem, f, i, w);
      ChainFrame(before, mem, HeadWord(), free);
      TableFrame(before, mem, at, pages);
    }

    // --------------------------------------------------------------- page tables

    /** Zeroes the 512 words of a frame. */
    method ZeroFrame(f: Word)
      modifies this`mem
      ensures forall g, j: nat :: mem(g, j) == if g == f && 0 <= j < ENTRIES then 0 else old(mem)(g, j)
    {
      mem := Zeroed(mem, f);
    }

    /** Zeroes the frame `f` and enters it into a table. */
    method EnterTable(table: Word, i: nat, user: bool, f: Word)
      requires table != f && i < ENTRIES
      modifies this`mem
      ensures forall g, j: nat :: 0 <= j < ENTRIES ==>
                mem(g, j) == if g == table && j == i then f | TableFlags(user) else if g == f then 0 else old(mem)(g, j)
      ensures forall g, j: nat :: g != table && g != f ==> mem(g, j) == old(mem)(g, j)
    {
      hide TableFlags;
      ZeroFrame(f);
      mem := Store(mem, table, i, f | TableFlags(user));
    }

    /** Hangs the frame `f` below the table `n`. */
    method HangTable(ghost n: Node, table: Word, i: nat, user: bool, f: Word)
      requires Core() && n in at && !n.Pt? && table == at[n] && i < ENTRIES && Child(n, i) !in at
      requires Loose(f, free, at, out)
      modifies this`mem, this`at
      ensures Core() && at == old(at)[Child(n, i) := f]
      ensures Base(mem(table, i)) == f && (Has(mem(table, i), USER) <==> user)
      ensures Keeps(old(mem), mem, old(at))
      ensures forall g, j: nat :: g in out ==> mem(g, j) == old(mem)(g, j)
    {
      hide Tree, Represents, Chain, Present, Base, TableFlags, IsFrame, Has, Keeps;
      ghost var before, tables := mem, at;
      EntryAt(mem, at, n, i);
      EnterTable(table, i, user, f);
      EnteringKeeps(before, mem, tables, table, i, f);
      TableEntry(f, user);
      at := at[Child(n, i) := f];
      NewTable(before, mem, tables, n, i, f, f | TableFlags(user));
      NewTableRepresents(before, mem, tables, n, i, f, pages);
      assert mem(table, i) == f | TableFlags(user);
      ChainFrame(before, mem, HeadWord(), free);
      AddTable(free, tables, out, Child(n, i), f);
    }

    static lemma EnteringKeeps(m: Memory, m': Memory, tables: map<Node, Word>, table: Word, i: nat, f: Word)
      requires f !in tables.Values && !Present(m(table, i))
      requires forall g, j: nat :: 0 <= j < ENTRIES && !(g == table && j == i) && g != f ==> m'(g, j) == m(g, j)
      ensures Keeps(m, m', tables)
    {
      hide Present;
      forall n, j: nat | n in tables && j < ENTRIES && Present(m(tables[n], j)) ensures m'(tables[n], j) == m(tables[n], j) {
        var g := tables[n];
        assert g in tables.Values && !(g == table && j == i);
        assert m'(g, j) == m(g, j);
      }
    }

    /** Finds the child table of `n` at index `i`, or hangs a frame from the free list
        there. Running out of frames is the source's panic. */
    method GetOrCreate(ghost n: Node, table: Word, i: nat, user: bool) returns (ok: bool, child: Word)
      requires Core() && n in at && !n.Pt? && table == at[n] && i < ENTRIES
      modifies this`mem, this`head, this`freePages, this`free, this`at
      ensures ok <==> Child(n, i) in old(at) || old(free) != []
      ensures ok ==> Core() && Child(n, i) in at && child == at[Child(n, i)]
      ensures ok ==> Level(old(at), old(free), at, free, Child(n, i))
      ensures ok ==> EntryGrew(old(mem), old(at), mem, at, Child(n, i), user)
      ensures Keeps(old(mem), mem, old(at))
      ensures forall g, j: nat :: g in out ==> mem(g, j) == old(mem)(g, j)
    {
      hide Tree, Represents, Chain, Present, Base, IsFrame, Has;
      assert Parent(Child(n, i)) == n && LastIndex(Child(n, i)) == i;
      EntryAt(mem, at, n, i);
      if !Present(mem(table, i)) {
        var f := PopFree();
        if f.None? {
          return false, 0;
        }
        HangTable(n, table, i, user, f.value);
      }
      return true, Base(mem(table, i));
    }

    /** The processor agrees with the finite map about what is mapped, where to, and what
        may be written. */
    lemma ProcessorAgrees(va: nat)
      requires Valid()
      ensures var w, p := WalkOf(mem, root, va), PageOf(va);
              && (Resolves(w) <==> p in pages)
              && (p in pages ==> w.e4 == pages[p] && (Grants(w, WRITABLE) <==> Has(pages[p], WRITABLE)))
    {
      hide Tree, Represents, Chain, Apart, Canonical, Has, Base, PageOf, Resolves, WalkOf;
      ResolvesIff(mem, at, pages, va);
      WalkFinds(mem, at, pages, PageOf(va));
      if PageOf(va) in pages { WritableIff(mem, at, va); }
    }

    /** Walks down, creating tables as needed, and writes the leaf. Fails only where the
        source panics: when the free list is shorter than the missing part of the way. */
    method MapPage(va: nat, physical: Word, flags: Word, user: bool) returns (ok: bool)
      requires Valid()
      modifies this`mem, this`head, this`freePages, this`free, this`at, this`pages
      ensures ok <==> |PathTail(old(pages), PageOf(va))| <= |old(free)|
      ensures ok ==> Valid() && pages == old(pages)[PageOf(va) := Leaf(physical, flags)]
      ensures ok ==> free == old(free)[|PathTail(old(pages), PageOf(va))|..]
      ensures ok ==> at == WithPath(old(at), PathTail(old(pages), PageOf(va)), old(free))
      ensures ok ==> MapsAs(WalkOf(old(mem), root, va), WalkOf(mem, root, va), physical, flags, user)
      ensures ok ==> OthersKept(old(mem), mem, root, va)
      ensures forall g, j: nat :: g in out ==> mem(g, j) == old(mem)(g, j)
    {
      hide Tree, Represents, Chain, Apart, Canonical, PathTail, Present, Leaf, PageOf, Keeps, Extends, WithPath, PathGrew;
      hide MapsAs, OthersKept;
      var p := PageOf(va);
      var pt;
      ok, pt := WalkCreating(p, user);
      if !ok {
        return;
      }
      var w := Leaf(physical, flags);
      ghost var m1 := mem;
      LeafIsPresent(physical, flags);
      CanonicalAfterMap(old(at), at, pages, p, w);
      WriteLeaf(p, pt, w);
      MappedAs(old(mem), old(at), m1, mem, at, va, physical, flags, user);
    }

    /** The three levels of `get_or_create_table`. */
    method WalkCreating(p: Page, user: bool) returns (ok: bool, pt: Word)
      requires Valid() && p.a < ENTRIES && p.b < ENTRIES && p.c < ENTRIES
      modifies this`mem, this`head, this`freePages, this`free, this`at
      ensures ok <==> |PathTail(pages, p)| <= |old(free)|
      ensures ok ==> Core() && PtOf(p) in at && pt == at[PtOf(p)]
      ensures ok ==> free == old(free)[|PathTail(pages, p)|..] && at == WithPath(old(at), PathTail(pages, p), old(free))
      ensures ok ==> at.Keys == old(at).Keys + {Pdpt(p.a), Pd(p.a, p.b), PtOf(p)}
      ensures ok ==> PathGrew(old(mem), old(at), mem, at, p, user)
      ensures ok ==> Keeps(old(mem), mem, old(at)) && Extends(old(at), at)
      ensures forall g, j: nat :: g in out ==> mem(g, j) == old(mem)(g, j)
    {
      hide Tree, Represents, Chain, Apart, Needed, PathTail, EntryGrew, Keeps, Canonical, WithPath;
      MissingIsPathTail(at, pages, p);
      ghost var a0, f0 := at, free;
      RootIsIn(mem, at);
      var pdpt, pd;
      ok, pdpt := GetOrCreate(Pml4, root, p.a, user);
      if !ok { return false, 0; }
      ghost var m1, a1, f1 := mem, at, free;
      ok, pd := GetOrCreate(Pdpt(p.a), pdpt, p.b, user);
      if !ok { return false, 0; }
      ghost var m2, a2, f2 := mem, at, free;
      ok, pt := GetOrCreate(Pd(p.a, p.b), pd, p.c, user);
      if !ok { return false, 0; }
      hide Missing, Level, Extends;
      ThreeLevels(a0, f0, a1, f1, a2, f2, at, free, p);
      PathGrows(old(mem), a0, m1, a1, m2, a2, mem, at, p, user);
    }

    method WriteLeaf(p: Page, pt: Word, w: Word)
      requires Core() && PtOf(p) in at && pt == at[PtOf(p)] && p.d < ENTRIES && Present(w)
      modifies this`mem, this`pages
      ensures Core() && pages == old(pages)[p := w] && mem == Store(old(mem), pt, p.d, w)
      ensures forall g, j: nat :: g in out ==> mem(g, j) == old(mem)(g, j)
    {
      hide Tree, Represents, Present;
      ghost var before := mem;
      SetLeaf(mem, at, p, w, pages);
      mem := Store(mem, pt, p.d, w);
      pages := pages[p := w];
      assert pt in at.Values;
      ChainFrame(before, mem, HeadWord(), free);
    }

    /** `get_physical_addr`: the walk agrees with the finite map of mapped pages. */
    method Translate(va: nat) returns (r: Option<Physical>)
      requires Valid()
      ensures r == if PageOf(va) in pages then Some(Physical(Base(pages[PageOf(va)]), va % PAGE_SIZE)) else None
      ensures var w := WalkOf(mem, root, va); r == if Resolves(w) then Some(Physical(Base(w.e4), va % PAGE_SIZE)) else None
    {
      hide Tree, Represents, Chain, Apart, Canonical, Present, Base, PageOf, Resolves, WalkOf;
      var p := PageOf(va);
      RootIsIn(mem, at);
      ResolvesIff(mem, at, pages, va);
      WalkFinds(mem, at, pages, p);
      EntryAt(mem, at, Pml4, p.a);
      var pml4e := mem(root, p.a);
      if !Present(pml4e) { return None; }
      EntryAt(mem, at, Pdpt(p.a), p.b);
      var pdpte := mem(Base(pml4e), p.b);
      if !Present(pdpte) { return None; }
      EntryAt(mem, at, Pd(p.a, p.b), p.c);
      var pde := mem(Base(pdpte), p.c);
      if !Present(pde) { return None; }
      var pte := mem(Base(pde), p.d);
      if !Present(pte) { return None; }
      return Some(Physical(Base(pte), va % PAGE_SIZE));
    }

    method IsTableEmpty(table: Word) returns (empty: bool)
      ensures empty <==> forall i :: 0 <= i < ENTRIES ==> !Present(mem(table, i))
    {
      hide Present;
      var i := 0;
      while i < ENTRIES
        invariant 0 <= i <= ENTRIES
        invariant forall k :: 0 <= k < i ==> !Present(mem(table, k))
      {
        if Present(mem(table, i)) {
          return false;
        }
        i := i + 1;
      }
      return true;
    }

    /** Gives an empty table back to the free list after clearing the entry above it. */
    method Reclaim(ghost c: Node, above: Word, i: nat, table: Word) returns (freed: bool)
      requires Core() && c in at && !c.Pml4? && Parent(c) in at
      requires above == at[Parent(c)] && i == LastIndex(c) && table == at[c]
      modifies this`mem, this`head, this`freePages, this`free, this`at
      ensures Core()
      ensures freed <==> forall k :: 0 <= k < ENTRIES ==> !Present(old(mem)(table, k))
      ensures freed ==> at == old(at) - {c} && free == [table] + old(free)
      ensures !freed ==> at == old(at) && free == old(free) && mem == old(mem)
      ensures Keeps(mem, old(mem), at)
      ensures forall g, j: nat :: g in out ==> mem(g, j) == old(mem)(g, j)
    {
      hide Tree, Represents, Chain, Present, Keeps;
      KeepsSame(mem, at);
      freed := IsTableEmpty(table);
      if freed {
        CutTable(mem, at, c);
        CutTableRepresents(mem, at, c, pages);
        DropTable(free, mem, at, out, c);
        ghost var before := mem;
        mem := Store(mem, above, i, 0);
        assert above in at.Values;
        ChainFrame(before, mem, HeadWord(), free);
        at := at - {c};
        RootStays(old(at), c);
        ghost var cut := mem;
        PushFree(table);
        ClearingKeeps(before, cut, mem, at, above, i, table);
      }
    }

    /** Clearing an entry and writing into a frame that is no table add no entry. */
    static lemma ClearingKeeps(m: Memory, cut: Memory, m': Memory, tables: map<Node, Word>, above: Word, i: nat, table: Word)
      requires cut == Store(m, above, i, 0) && table !in tables.Values
      requires forall g, j: nat :: g != table ==> m'(g, j) == cut(g, j)
      ensures Keeps(m', m, tables)
    {
      assert !Present(0);
      hide Present;
      forall n, j: nat | n in tables && j < ENTRIES && Present(m'(tables[n], j)) ensures m(tables[n], j) == m'(tables[n], j) {
        var g := tables[n];
        assert g in tables.Values && m'(g, j) == cut(g, j);
      }
    }

    static lemma KeepsSame(m: Memory, tables: map<Node, Word>)
      ensures Keeps(m, m, tables)
    {
    }

    static lemma RootStays(tables: map<Node, Word>, c: Node)
      requires Pml4 in tables && !c.Pml4?
      ensures Pml4 in tables - {c} && (tables - {c})[Pml4] == tables[Pml4]
    {
    }

    method ClearPage(p: Page, pt: Word)
      requires Core() && p in pages && PtOf(p) in at && pt == at[PtOf(p)]
      modifies this`mem, this`pages
      ensures Core() && pages == old(pages) - {p} && Keeps(mem, old(mem), at)
      ensures forall g, j: nat :: g in out ==> mem(g, j) == old(mem)(g, j)
    {
      hide Tree, Represents;
      assert !Present(0);
      hide Present;
      ghost var before := mem;
      ClearLeaf(mem, at, p, pages);
      mem := Store(mem, pt, p.d, 0);
      pages := pages - {p};
      assert pt in at.Values;
      ChainFrame(before, mem, HeadWord(), free);
    }

    /** Clears the leaf of a mapped page and then reclaims the tables on the way, from
        the page table upwards, stopping at the first one that is still in use. */
    method UnmapPage(va: nat) returns (was: bool)
      requires Valid()
      modifies this`mem, this`head, this`freePages, this`free, this`at, this`pages
      ensures Valid() && was == (PageOf(va) in old(pages))
      ensures pages == old(pages) - {PageOf(va)}
      ensures !was ==> free == old(free) && at == old(at)
      ensures was ==> var ns := PathTail(pages, PageOf(va));
                      (forall n :: n in ns ==> n in old(at))
                      && free == FramesOf(old(at), ns) + old(free)
                      && at == old(at) - (set n | n in ns)
      ensures !Resolves(WalkOf(mem, root, va)) && OthersKept(old(mem), mem, root, va)
      ensures forall g, j: nat :: g in out ==> mem(g, j) == old(mem)(g, j)
    {
      hide Tree, Represents, Chain, Apart, Canonical, Present, Base, PageOf, Needed, CanonicalBut, PathTail, Keeps;
      hide OthersKept, Resolves, WalkOf;
      var p := PageOf(va);
      RootIsIn(mem, at);
      ResolvesIff(mem, at, pages, va);
      OthersSame(mem, root, va);
      WalkFinds(mem, at, pages, p);
      EntryAt(mem, at, Pml4, p.a);
      var pml4e := mem(root, p.a);
      if !Present(pml4e) { return false; }
      EntryAt(mem, at, Pdpt(p.a), p.b);
      var pdpt := Base(pml4e);
      var pdpte := mem(pdpt, p.b);
      if !Present(pdpte) { return false; }
      EntryAt(mem, at, Pd(p.a, p.b), p.c);
      var pd := Base(pdpte);
      var pde := mem(pd, p.c);
      if !Present(pde) { return false; }
      var pt := Base(pde);
      if !Present(mem(pt, p.d)) { return false; }
      CanonicalAfterClear(at, pages, p);
      ClearPage(p, pt);
      ghost var m1, a1 := mem, at;
      ReclaimPath(p, pdpt, pd, pt);
      KeepsTwice(mem, m1, old(mem), at, a1);
      UnmappedAs(old(mem), old(at), old(pages), mem, at, va);
      return true;
    }

    /** One step of the way up: the table goes exactly if no mapped page needs it. */
    method ReclaimUnneeded(ghost c: Node, above: Word, i: nat, table: Word, ghost open: set<Node>) returns (freed: bool)
      requires Core() && CanonicalBut(at, pages, open) && c in open && c in at && !c.Pml4? && Parent(c) in at
      requires !c.Pt? ==> forall k :: 0 <= k < ENTRIES ==> Child(c, k) !in open
      requires above == at[Parent(c)] && i == LastIndex(c) && table == at[c]
      modifies this`mem, this`head, this`freePages, this`free, this`at
      ensures Core() && CanonicalBut(at, pages, open - {c})
      ensures freed <==> !Needed(pages, c)
      ensures at == (if freed then old(at) - {c} else old(at)) && free == (if freed then [table] else []) + old(free)
      ensures Keeps(mem, old(mem), at)
      ensures forall g, j: nat :: g in out ==> mem(g, j) == old(mem)(g, j)
    {
      hide Tree, Represents, Chain, Apart, Present, Needed, Keeps;
      EmptyIffUnneeded(mem, at, pages, c);
      ghost var before := at;
      freed := Reclaim(c, above, i, table);
      Settle(before, at, pages, open, c);
    }

    /** The page directory, and above it the directory pointer table. */
    method ReclaimUpper(p: Page, pdpt: Word, pd: Word)
      requires Core() && CanonicalBut(at, pages, {Pdpt(p.a), Pd(p.a, p.b)})
      requires Pdpt(p.a) in at && Pd(p.a, p.b) in at && Pml4 in at
      requires pdpt == at[Pdpt(p.a)] && pd == at[Pd(p.a, p.b)]
      modifies this`mem, this`head, this`freePages, this`free, this`at
      ensures Valid()
      ensures Needed(pages, Pd(p.a, p.b)) ==> at == old(at) && free == old(free)
      ensures !Needed(pages, Pd(p.a, p.b)) && Needed(pages, Pdpt(p.a)) ==>
                at == old(at) - {Pd(p.a, p.b)} && free == [pd] + old(free)
      ensures !Needed(pages, Pd(p.a, p.b)) && !Needed(pages, Pdpt(p.a)) ==>
                at == old(at) - {Pd(p.a, p.b)} - {Pdpt(p.a)} && free == [pdpt, pd] + old(free)
      ensures Keeps(mem, old(mem), at) && Extends(at, old(at))
      ensures forall g, j: nat :: g in out ==> mem(g, j) == old(mem)(g, j)
    {
      hide Tree, Represents, Chain, Apart, Needed, Present, CanonicalBut, Canonical, Keeps;
      ghost var p1, p2 := Pdpt(p.a), Pd(p.a, p.b);
      var freed := ReclaimUnneeded(p2, pdpt, p.b, pd, {p1, p2});
      ghost var m1, a1 := mem, at;
      assert {p1, p2} - {p2} == {p1};
      if !freed {
        SettleUp(at, pages, {p1}, p2);
        return;
      }
      freed := ReclaimUnneeded(p1, root, p.a, pdpt, {p1});
      KeepsTwice(mem, m1, old(mem), at, a1);
      assert {p1} - {p1} == {};
      AllSettled(at, pages);
    }

    method ReclaimPath(p: Page, pdpt: Word, pd: Word, pt: Word)
      requires Core() && CanonicalBut(at, pages, {Pdpt(p.a), Pd(p.a, p.b), PtOf(p)})
      requires Pdpt(p.a) in at && Pd(p.a, p.b) in at && PtOf(p) in at && Pml4 in at
      requires pdpt == at[Pdpt(p.a)] && pd == at[Pd(p.a, p.b)] && pt == at[PtOf(p)]
      modifies this`mem, this`head, this`freePages, this`free, this`at
      ensures Valid()
      ensures var ns := PathTail(pages, p);
              (forall n :: n in ns ==> n in old(at))
              && free == FramesOf(old(at), ns) + old(free)
              && at == old(at) - (set n | n in ns)
      ensures Keeps(mem, old(mem), at)
      ensures forall g, j: nat :: g in out ==> mem(g, j) == old(mem)(g, j)
    {
      hide Tree, Represents, Chain, Apart, Needed, Present, CanonicalBut, Canonical, FramesOf, Keeps, PathTail, Extends;
      ghost var p1, p2, p3 := Pdpt(p.a), Pd(p.a, p.b), PtOf(p);
      ghost var a0, f0 := at, free;
      var freed := ReclaimUnneeded(p3, pd, p.c, pt, {p1, p2, p3});
      assert {p1, p2, p3} - {p3} == {p1, p2};
      ghost var m1, a1 := mem, at;
      if freed {
        ReclaimUpper(p, pdpt, pd);
        KeepsTwice(mem, m1, old(mem), at, a1);
      } else {
        SettleUp(at, pages, {p1, p2}, p3);
      }
      PathReclaimed(a0, f0, at, free, pages, p);
    }

    /** The outcomes of the reclamation, as one tail of the way. */
    static lemma PathReclaimed(a0: map<Node, Word>, f0: seq<Word>, a': map<Node, Word>, f': seq<Word>,
                               pages: map<Page, Word>, p: Page)
      requires Pdpt(p.a) in a0 && Pd(p.a, p.b) in a0 && PtOf(p) in a0
      requires Needed(pages, PtOf(p)) ==> a' == a0 && f' == f0
      requires !Needed(pages, PtOf(p)) && Needed(pages, Pd(p.a, p.b)) ==> a' == a0 - {PtOf(p)} && f' == [a0[PtOf(p)]] + f0
      requires !Needed(pages, PtOf(p)) && !Needed(pages, Pd(p.a, p.b)) && Needed(pages, Pdpt(p.a)) ==>
                 a' == a0 - {PtOf(p)} - {Pd(p.a, p.b)} && f' == [a0[Pd(p.a, p.b)]] + ([a0[PtOf(p)]] + f0)
      requires !Needed(pages, PtOf(p)) && !Needed(pages, Pd(p.a, p.b)) && !Needed(pages, Pdpt(p.a)) ==>
                 a' == a0 - {PtOf(p)} - {Pd(p.a, p.b)} - {Pdpt(p.a)}
                 && f' == [a0[Pdpt(p.a)], a0[Pd(p.a, p.b)]] + ([a0[PtOf(p)]] + f0)
      ensures var ns := PathTail(pages, p);
              (forall n :: n in ns ==> n in a0) && f' == FramesOf(a0, ns) + f0 && a' == a0 - (set n | n in ns)
    {
      hide Needed, FramesOf;
      UnneededBelow(pages, p);
      FramesOfIs(a0, PathTail(pages, p));
    }

    /** Mapping a page that was not mapped and unmapping it again restores the address
        space, the tables and the free list, the latter as the identical sequence. */
    method MapThenUnmap(va: nat, physical: Word, flags: Word, user: bool)
      requires Valid() && PageOf(va) !in pages && |PathTail(pages, PageOf(va))| <= |free|
      modifies this`mem, this`head, this`freePages, this`free, this`at, this`pages
      ensures Valid() && pages == old(pages) && at == old(at) && free == old(free)
    {
      hide Tree, Represents, Chain, Apart, Canonical, PathTail, PageOf, Leaf;
      ghost var p, w := PageOf(va), Leaf(physical, flags);
      ghost var ns := PathTail(pages, p);
      var ok := MapPage(va, physical, flags, user);
      ghost var a := at;
      var was := UnmapPage(va);
      assert old(pages)[p := w] - {p} == old(pages);
      PathTailMissing(old(at), old(pages), p);
      PathUndone(old(at), ns, old(free));
    }

    /** Any sequence of operations: as long as no walk runs out of frames, the address
        space is the finite map that the same operations produce from a finite map. */
    method RunOps(ops: seq<Op>) returns (ok: bool)
      requires Valid()
      modifies this`mem, this`head, this`freePages, this`free, this`at, this`pages
      ensures ok ==> Valid() && pages == ApplyOps(old(pages), ops)
      ensures 3 * |ops| <= |old(free)| ==> ok
      ensures forall g, j: nat :: g in out ==> mem(g, j) == old(mem)(g, j)
    {
      hide Tree, Represents, Chain, Apart, Canonical, Leaf, PageOf, Core, FramesOf;
      var k := 0;
      assert ops[0..] == ops;
      while k < |ops|
        invariant 0 <= k <= |ops| && Valid()
        invariant ApplyOps(pages, ops[k..]) == ApplyOps(old(pages), ops)
        invariant 3 * |ops| <= |old(free)| ==> 3 * (|ops| - k) <= |free|
        invariant forall g, j: nat :: g in out ==> mem(g, j) == old(mem)(g, j)
      {
        assert ops[k..][1..] == ops[k + 1..];
        match ops[k] {
          case Map(va, physical, flags, user) =>
            ok := MapPage(va, physical, flags, user);
            if !ok {
              return false;
            }
          case Unmap(va) =>
            var _ := UnmapPage(va);
        }
        k := k + 1;
      }
      return true;
    }

    /** `unmap_and_free_page` up to the call of `free_page`: the address it will hand over
        is the mapped frame exactly if the virtual address is page-aligned and the flags of
        the mapping leak no bit into the address. */
    method UnmapForFree(va: nat, ghost physical: Word, ghost flags: Word) returns (freed: Option<Physical>)
      requires Valid()
      requires PageOf(va) in pages ==> pages[PageOf(va)] == Leaf(physical, flags)
      modifies this`mem, this`head, this`freePages, this`free, this`at, this`pages
      ensures Valid() && pages == old(pages) - {PageOf(va)} && out == old(out)
      ensures PageOf(va) !in old(pages) ==> freed == None && free == old(free)
      ensures PageOf(va) in old(pages) ==>
                && freed == Some(Physical(Base(old(pages)[PageOf(va)]), va % PAGE_SIZE))
                && (freed == Some(Physical(Base(physical), 0)) <==>
                      va % PAGE_SIZE == 0 && flags & !LOW & !physical == 0)
      ensures forall g, j: nat :: g in out ==> mem(g, j) == old(mem)(g, j)
    {
      hide Tree, Represents, Chain, Apart, Canonical, Base, PageOf, Core, Leaf;
      FreedAddressIsTheFrameIff(physical, flags, va);
      freed := Translate(va);
      if freed.Some? {
        var _ := UnmapPage(va);
      }
    }

    /** The whole of it, for a page-aligned address whose frame the caller owns. */
    method UnmapAndFree(va: nat, ghost physical: Word, ghost flags: Word)
      requires Valid()
      requires PageOf(va) in pages ==> pages[PageOf(va)] == Leaf(physical, flags)
      requires PageOf(va) in pages ==> va % PAGE_SIZE == 0 && Base(pages[PageOf(va)]) in out
      modifies this
      ensures Valid() && pages == old(pages) - {PageOf(va)}
      ensures PageOf(va) in old(pages) ==> out == old(out) - {Base(old(pages)[PageOf(va)])}
      ensures PageOf(va) in old(pages) ==> free != [] && free[0] == Base(old(pages)[PageOf(va)])
      ensures PageOf(va) !in old(pages) ==> free == old(free) && out == old(out)
    {
      hide Tree, Represents, Chain, Apart, Canonical, Base, PageOf, Core, Leaf;
      var freed := UnmapForFree(va, physical, flags);
      if freed.Some? {
        assert freed.value.offset == 0;
        FreeFrame(freed.value.frame);
      }
    }
  }
}
