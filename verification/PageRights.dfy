/** What the processor makes of the tables: it reads one entry per level, follows the frame
    address in it, and grants a right only if all four entries grant it (volume 3, sections
    4.5 and 4.6 of the Intel manual). How the entries came about plays no part in it. */
module PageRights {
  import opened PageWords
  import opened Paging

  /** The entries of a walk, from the root down. */
  datatype Walk = Walk(e1: Word, e2: Word, e3: Word, e4: Word)

  /** Bits 47 to 39 of the address index the root, 38 to 30 the next table, and so on. */
  function WalkOf(m: Memory, root: Word, va: nat): (w: Walk)
  {
    var e1 := m(root, va / 0x80_0000_0000 % 512);
    var e2 := m(Base(e1), va / 0x4000_0000 % 512);
    var e3 := m(Base(e2), va / 0x20_0000 % 512);
    Walk(e1, e2, e3, m(Base(e3), va / 0x1000 % 512))
  }

  /** All four entries have the bit. */
  predicate Grants(w: Walk, bit: Word)
  {
    Has(w.e1, bit) && Has(w.e2, bit) && Has(w.e3, bit) && Has(w.e4, bit)
  }

  predicate Resolves(w: Walk)
  {
    Present(w.e1) && Present(w.e2) && Present(w.e3) && Present(w.e4)
  }

  /** The three tables below the root exist. */
  predicate TablesExist(w: Walk)
  {
    Present(w.e1) && Present(w.e2) && Present(w.e3)
  }

  /** As far as the tables exist, their entries have the bit. */
  predicate TablesGrant(w: Walk, bit: Word)
  {
    Present(w.e1) ==> Has(w.e1, bit) && (Present(w.e2) ==> Has(w.e2, bit) && (Present(w.e3) ==> Has(w.e3, bit)))
  }

  // ------------------------------------------------------------------ walks in the tree

  /** The entry that leads to the table `c`. */
  ghost function Above(m: Memory, at: map<Node, Word>, c: Node): (w: Word)
    requires !c.Pml4? && Parent(c) in at
  {
    m(at[Parent(c)], LastIndex(c))
  }

  /** The walk follows the tables of the tree as far as they exist. */
  lemma WalkInTree(m: Memory, at: map<Node, Word>, va: nat)
    requires Tree(m, at)
    ensures var p, w := PageOf(va), WalkOf(m, at[Pml4], va);
            && w.e1 == Above(m, at, Pdpt(p.a)) && (Present(w.e1) <==> Pdpt(p.a) in at)
            && (Pdpt(p.a) in at ==> w.e2 == Above(m, at, Pd(p.a, p.b)) && (Present(w.e2) <==> Pd(p.a, p.b) in at))
            && (Pd(p.a, p.b) in at ==>
                  Pdpt(p.a) in at && w.e3 == Above(m, at, PtOf(p)) && (Present(w.e3) <==> PtOf(p) in at))
            && (PtOf(p) in at ==> Pd(p.a, p.b) in at && w.e4 == m(at[PtOf(p)], p.d))
  {
    hide Present, Base, Has, PageOf;
    var p := PageOf(va);
    assert p == Page(va / 0x80_0000_0000 % 512, va / 0x4000_0000 % 512, va / 0x20_0000 % 512, va / 0x1000 % 512) by {
      PageIndices(va);
    }
    EntryAt(m, at, Pml4, p.a);
    if Pdpt(p.a) in at { EntryAt(m, at, Pdpt(p.a), p.b); }
    if Pd(p.a, p.b) in at { EntryAbove(m, at, Pd(p.a, p.b)); EntryAt(m, at, Pd(p.a, p.b), p.c); }
    if PtOf(p) in at { EntryAbove(m, at, PtOf(p)); }
  }

  lemma PageIndices(va: nat)
    ensures PageOf(va) == Page(va / 0x80_0000_0000 % 512, va / 0x4000_0000 % 512, va / 0x20_0000 % 512, va / 0x1000 % 512)
  {
  }

  /** Every present entry of the tables `at` is the same in `m'`. */
  ghost predicate Keeps(m: Memory, m': Memory, at: map<Node, Word>)
  {
    forall n, j: nat :: n in at && j < ENTRIES && Present(m(at[n], j)) ==> m'(at[n], j) == m(at[n], j)
  }

  /** The same but for the leaf of the page `p`. */
  ghost predicate KeepsBut(m: Memory, m': Memory, at: map<Node, Word>, p: Page)
  {
    forall n, j: nat :: n in at && j < ENTRIES && Present(m(at[n], j)) && !(n == PtOf(p) && j == p.d) ==>
      m'(at[n], j) == m(at[n], j)
  }

  lemma KeepsTwice(m: Memory, m': Memory, m'': Memory, at: map<Node, Word>, at': map<Node, Word>)
    requires Keeps(m, m', at) && Keeps(m', m'', at')
    requires Extends(at, at')
    ensures Keeps(m, m'', at)
  {
    hide Present;
  }

  lemma KeepsLeaf(m: Memory, m': Memory, at: map<Node, Word>, at': map<Node, Word>, p: Page, w: Word)
    requires Keeps(m, m', at) && Tree(m', at') && PtOf(p) in at'
    requires Extends(at, at')
    ensures KeepsBut(m, Store(m', at'[PtOf(p)], p.d, w), at, p)
  {
    hide Present;
  }

  /** A page other than `p` that resolves goes on resolving in the same way. */
  lemma WalkKept(m: Memory, m': Memory, at: map<Node, Word>, p: Page, va: nat)
    requires Tree(m, at) && KeepsBut(m, m', at, p) && PageOf(va) != p && Resolves(WalkOf(m, at[Pml4], va))
    ensures WalkOf(m', at[Pml4], va) == WalkOf(m, at[Pml4], va)
  {
    hide Present, Base, Has;
    var q, w := PageOf(va), WalkOf(m, at[Pml4], va);
    WalkInTree(m, at, va);
    PageIndices(va);
    TreeBases(m, at, q);
    hide PageOf, Tree, KeepsBut;
    assert m'(at[Pml4], q.a) == w.e1 by { KeptAt(m, m', at, p, Pml4, q.a); }
    assert m'(at[Pdpt(q.a)], q.b) == w.e2 by { KeptAt(m, m', at, p, Pdpt(q.a), q.b); }
    assert m'(at[Pd(q.a, q.b)], q.c) == w.e3 by { KeptAt(m, m', at, p, Pd(q.a, q.b), q.c); }
    assert m'(at[PtOf(q)], q.d) == w.e4 by { KeptAt(m, m', at, p, PtOf(q), q.d); }
  }

  lemma KeptAt(m: Memory, m': Memory, at: map<Node, Word>, p: Page, n: Node, j: nat)
    requires KeepsBut(m, m', at, p) && n in at && j < ENTRIES && Present(m(at[n], j)) && !(n == PtOf(p) && j == p.d)
    ensures m'(at[n], j) == m(at[n], j)
  {
  }

  lemma TreeBases(m: Memory, at: map<Node, Word>, p: Page)
    requires Tree(m, at) && PtOf(p) in at
    ensures Pml4 in at && Pdpt(p.a) in at && Pd(p.a, p.b) in at
    ensures Base(m(at[Pml4], p.a)) == at[Pdpt(p.a)] && Base(m(at[Pdpt(p.a)], p.b)) == at[Pd(p.a, p.b)]
    ensures Base(m(at[Pd(p.a, p.b)], p.c)) == at[PtOf(p)]
  {
    hide Present, Base, Has;
    EntryAbove(m, at, PtOf(p));
    EntryAbove(m, at, Pd(p.a, p.b));
    EntryAbove(m, at, Pdpt(p.a));
    EntryAt(m, at, Pml4, p.a);
    EntryAt(m, at, Pdpt(p.a), p.b);
    EntryAt(m, at, Pd(p.a, p.b), p.c);
  }

  /** A walk resolves exactly for the mapped pages, and its last entry is the mapping. */
  lemma ResolvesIff(m: Memory, at: map<Node, Word>, pages: map<Page, Word>, va: nat)
    requires Tree(m, at) && Represents(m, at, pages)
    ensures var w := WalkOf(m, at[Pml4], va);
            && (Resolves(w) <==> PageOf(va) in pages)
            && (Resolves(w) ==> w.e4 == pages[PageOf(va)])
  {
    hide Present, Base, Has, Tree, Represents;
    WalkInTree(m, at, va);
    WalkFinds(m, at, pages, PageOf(va));
  }

  /** All tables are writable, so a page is exactly if its own entry is. */
  lemma WritableIff(m: Memory, at: map<Node, Word>, va: nat)
    requires Tree(m, at) && PtOf(PageOf(va)) in at
    ensures var w := WalkOf(m, at[Pml4], va); Grants(w, WRITABLE) <==> Has(w.e4, WRITABLE)
  {
    hide Present, Base, Has;
    var p := PageOf(va);
    hide PageOf;
    WalkInTree(m, at, va);
    TreeBases(m, at, p);
    EntryAt(m, at, Pml4, p.a);
    EntryAt(m, at, Pdpt(p.a), p.b);
    EntryAt(m, at, Pd(p.a, p.b), p.c);
  }

  // ------------------------------------------------------------------------- new tables

  /** The entry above `c` is the old one, or belongs to a table created for `user`. */
  ghost predicate EntryGrew(m: Memory, at: map<Node, Word>, m': Memory, at': map<Node, Word>, c: Node, user: bool)
    requires !c.Pml4?
  {
    && Parent(c) in at'
    && (Has(Above(m', at', c), USER) <==>
          if c in at && Parent(c) in at then Has(Above(m, at, c), USER) else user)
  }

  /** The same on the whole way to the page `p`. */
  ghost predicate PathGrew(m: Memory, at: map<Node, Word>, m': Memory, at': map<Node, Word>, p: Page, user: bool)
  {
    && EntryGrew(m, at, m', at', Pdpt(p.a), user)
    && EntryGrew(m, at, m', at', Pd(p.a, p.b), user)
    && EntryGrew(m, at, m', at', PtOf(p), user)
  }

  /** Later levels leave the entry above `c` as it is. */
  lemma GrewEarlier(m: Memory, at: map<Node, Word>, m': Memory, at': map<Node, Word>, m'': Memory, at'': map<Node, Word>,
                    c: Node, user: bool)
    requires !c.Pml4? && EntryGrew(m, at, m', at', c, user) && Tree(m', at') && c in at'
    requires Keeps(m', m'', at') && Extends(at', at'')
    ensures EntryGrew(m, at, m'', at'', c, user)
  {
    hide Present, Has;
    EntryAbove(m', at', c);
  }

  /** Earlier levels left the entry above `c` as it was. */
  lemma GrewLater(m: Memory, at: map<Node, Word>, m': Memory, at': map<Node, Word>, m'': Memory, at'': map<Node, Word>,
                  c: Node, user: bool)
    requires !c.Pml4? && EntryGrew(m', at', m'', at'', c, user) && Tree(m, at)
    requires Keeps(m, m', at) && Extends(at, at') && (c in at <==> c in at') && Parent(c) in at'
    ensures EntryGrew(m, at, m'', at'', c, user)
  {
    hide Present, Has;
    if c in at { EntryAbove(m, at, c); }
  }

  /** The three levels of a walk that creates what is missing. */
  lemma PathGrows(m0: Memory, a0: map<Node, Word>, m1: Memory, a1: map<Node, Word>, m2: Memory, a2: map<Node, Word>,
                  m3: Memory, a3: map<Node, Word>, p: Page, user: bool)
    requires Tree(m0, a0) && Tree(m1, a1) && Tree(m2, a2) && Tree(m3, a3)
    requires Extends(a0, a1) && Extends(a1, a2) && Extends(a2, a3)
    requires Keeps(m0, m1, a0) && Keeps(m1, m2, a1) && Keeps(m2, m3, a2)
    requires a1.Keys == a0.Keys + {Pdpt(p.a)} && a2.Keys == a1.Keys + {Pd(p.a, p.b)} && a3.Keys == a2.Keys + {PtOf(p)}
    requires EntryGrew(m0, a0, m1, a1, Pdpt(p.a), user) && EntryGrew(m1, a1, m2, a2, Pd(p.a, p.b), user)
    requires EntryGrew(m2, a2, m3, a3, PtOf(p), user)
    ensures PathGrew(m0, a0, m3, a3, p, user) && Keeps(m0, m3, a0) && Extends(a0, a3)
  {
    hide Tree, Keeps, EntryGrew;
    KeepsTwice(m0, m1, m2, a0, a1);
    KeepsTwice(m0, m2, m3, a0, a2);
    KeepsTwice(m1, m2, m3, a1, a2);
    GrewEarlier(m0, a0, m1, a1, m3, a3, Pdpt(p.a), user);
    GrewLater(m0, a0, m1, a1, m2, a2, Pd(p.a, p.b), user);
    GrewEarlier(m0, a0, m2, a2, m3, a3, Pd(p.a, p.b), user);
    GrewLater(m0, a0, m2, a2, m3, a3, PtOf(p), user);
  }

  /** What a mapping does to the walk of its address. */
  predicate MapsAs(before: Walk, after: Walk, physical: Word, flags: Word, user: bool)
  {
    && Resolves(after)
    && after.e4 & LOW == (flags | PRESENT) & LOW && Base(after.e4) == Base(physical | flags)
    && (Grants(after, WRITABLE) <==> Has(flags, WRITABLE))
    && (Grants(after, USER) <==>
          Has(flags, USER) && TablesGrant(before, USER) && (user || TablesExist(before)))
  }

  lemma UserGrants(m: Memory, at: map<Node, Word>, m': Memory, at': map<Node, Word>, va: nat, user: bool)
    requires Tree(m, at) && Tree(m', at') && PtOf(PageOf(va)) in at'
    requires EntryGrew(m, at, m', at', Pdpt(PageOf(va).a), user)
    requires EntryGrew(m, at, m', at', Pd(PageOf(va).a, PageOf(va).b), user)
    requires EntryGrew(m, at, m', at', PtOf(PageOf(va)), user)
    ensures var w, w' := WalkOf(m, at[Pml4], va), WalkOf(m', at'[Pml4], va);
            Grants(w', USER) <==> Has(w'.e4, USER) && TablesGrant(w, USER) && (user || TablesExist(w))
  {
    hide Present, Base, Has, PageOf, WalkOf;
    WalkInTree(m, at, va);
    WalkInTree(m', at', va);
    hide Tree;
    var p, w, w' := PageOf(va), WalkOf(m, at[Pml4], va), WalkOf(m', at'[Pml4], va);
    assert Has(w'.e1, USER) <==> if Present(w.e1) then Has(w.e1, USER) else user;
    if Present(w.e1) {
      assert Has(w'.e2, USER) <==> if Present(w.e2) then Has(w.e2, USER) else user;
    }
  }

  /** The pages that resolved before, other than that of `va`, do so in the same way. */
  ghost predicate OthersKept(m: Memory, m': Memory, root: Word, va: nat)
  {
    forall v: nat :: PageOf(v) != PageOf(va) && Resolves(WalkOf(m, root, v)) ==> WalkOf(m', root, v) == WalkOf(m, root, v)
  }

  /** The whole of a mapping: tables on the way, then the leaf. */
  lemma MappedAs(m: Memory, at: map<Node, Word>, m1: Memory, m': Memory, at': map<Node, Word>,
                 va: nat, physical: Word, flags: Word, user: bool)
    requires Tree(m, at) && Tree(m1, at') && Tree(m', at') && Extends(at, at') && Keeps(m, m1, at)
    requires PtOf(PageOf(va)) in at' && PathGrew(m, at, m1, at', PageOf(va), user)
    requires m' == Store(m1, at'[PtOf(PageOf(va))], PageOf(va).d, Leaf(physical, flags))
    ensures MapsAs(WalkOf(m, at[Pml4], va), WalkOf(m', at'[Pml4], va), physical, flags, user)
    ensures OthersKept(m, m', at[Pml4], va)
  {
    hide Present, Base, Has, PageOf, WalkOf, Leaf, Keeps, Extends;
    var p, w' := PageOf(va), WalkOf(m', at'[Pml4], va);
    LeafIsPresent(physical, flags);
    LeafRights(physical, flags);
    LeafLow(physical, flags);
    LeafBase(physical, flags);
    WalkInTree(m', at', va);
    EntryAbove(m', at', PtOf(p));
    LeafKeepsPath(m, at, m1, m', at', p, Leaf(physical, flags), user);
    hide Tree, Store;
    UserGrants(m, at, m', at', va, user);
    WritableIff(m', at', va);
    KeepsLeaf(m, m1, at, at', p, Leaf(physical, flags));
    forall v: nat | PageOf(v) != p && Resolves(WalkOf(m, at[Pml4], v))
      ensures WalkOf(m', at[Pml4], v) == WalkOf(m, at[Pml4], v)
    {
      WalkKept(m, m', at, p, v);
    }
  }

  /** Writing a leaf does not touch the entries above it. */
  lemma LeafKeepsPath(m: Memory, at: map<Node, Word>, m1: Memory, m': Memory, at': map<Node, Word>, p: Page, w: Word, user: bool)
    requires Tree(m1, at') && PtOf(p) in at' && PathGrew(m, at, m1, at', p, user)
    requires m' == Store(m1, at'[PtOf(p)], p.d, w)
    ensures PathGrew(m, at, m', at', p, user)
  {
    hide Present, Has;
  }

  lemma OthersSame(m: Memory, root: Word, va: nat)
    ensures OthersKept(m, m, root, va)
  {
  }

  /** The whole of an unmapping: it adds no entry, and takes one page out. */
  lemma UnmappedAs(m: Memory, at: map<Node, Word>, pages: map<Page, Word>, m': Memory, at': map<Node, Word>, va: nat)
    requires Tree(m, at) && Represents(m, at, pages) && Tree(m', at') && Represents(m', at', pages - {PageOf(va)})
    requires Keeps(m', m, at') && at[Pml4] == at'[Pml4]
    ensures OthersKept(m, m', at[Pml4], va) && !Resolves(WalkOf(m', at[Pml4], va))
  {
    hide Represents, PageOf, WalkOf, Present, Resolves;
    ResolvesIff(m', at', pages - {PageOf(va)}, va);
    forall v: nat | PageOf(v) != PageOf(va) && Resolves(WalkOf(m, at[Pml4], v))
      ensures WalkOf(m', at[Pml4], v) == WalkOf(m, at[Pml4], v)
    {
      ResolvesIff(m, at, pages, v);
      ResolvesIff(m', at', pages - {PageOf(va)}, v);
      WalkKept(m', m, at', PageOf(va), v);
    }
  }
}
