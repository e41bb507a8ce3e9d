/** The facts about memory contents that the memory manager keeps: an intrusive free
    list, a tree of page tables, and the finite map from pages to words that the tree
    stands for. */
module Paging {
  import opened PageWords

  /** Physical memory: word `i` of the frame `f`. */
  type Memory = (Word, nat) -> Word

  function Store(m: Memory, f: Word, i: nat, w: Word): Memory
  {
    (g: Word, j: nat) => if g == f && j == i then w else m(g, j)
  }

  // ------------------------------------------------------------------ the free list

  /** Starting at `head`, word 0 of each free frame leads to the next, and 0 ends the
      list. No frame occurs twice. */
  ghost predicate Chain(m: Memory, head: Word, free: seq<Word>)
    decreases |free|
  {
    if free == [] then head == 0
    else head == free[0] && IsFrame(head) && head !in free[1..] && Chain(m, m(head, 0), free[1..])
  }

  lemma {:induction false} ChainFrame(m: Memory, m': Memory, head: Word, free: seq<Word>)
    requires Chain(m, head, free)
    requires forall f :: f in free ==> m'(f, 0) == m(f, 0)
    ensures Chain(m', head, free)
    decreases |free|
  {
    if free != [] {
      ChainFrame(m, m', m(head, 0), free[1..]);
    }
  }

  lemma {:induction false} ChainFrames(m: Memory, head: Word, free: seq<Word>)
    requires Chain(m, head, free)
    ensures forall f :: f in free ==> IsFrame(f)
    ensures forall i, j :: 0 <= i < j < |free| ==> free[i] != free[j]
    ensures head == 0 <==> free == []
    decreases |free|
  {
    if free != [] {
      ChainFrames(m, m(head, 0), free[1..]);
      assert forall i :: 1 <= i < |free| ==> free[i] == free[1..][i - 1];
    }
  }

  lemma {:induction false} ChainPush(m: Memory, f: Word, head: Word, free: seq<Word>)
    requires Chain(m, head, free) && IsFrame(f) && f !in free
    ensures Chain(Store(m, f, 0, head), f, [f] + free)
  {
    var m' := Store(m, f, 0, head);
    ChainFrame(m, m', head, free);
    assert ([f] + free)[1..] == free;
    assert m'(f, 0) == head;
  }

  // ---------------------------------------------------------------- the table tree

  /** A page table by its position in the tree. */
  datatype Node = Pml4 | Pdpt(a: nat) | Pd(a: nat, b: nat) | Pt(a: nat, b: nat, c: nat)

  function Child(n: Node, i: nat): (r: Node)
    requires !n.Pt?
  {
    match n
    case Pml4 => Pdpt(i)
    case Pdpt(a) => Pd(a, i)
    case Pd(a, b) => Pt(a, b, i)
  }

  /** An intermediate entry is either zero, or present and writable and leads to the
      child. */
  ghost predicate EntryOk(w: Word, at: map<Node, Word>, child: Node)
  {
    if Present(w) then child in at && at[child] == Base(w) && Has(w, WRITABLE) else w == 0 && child !in at
  }

  /** `at` holds the frame of every table; the tables form a tree without sharing. */
  ghost predicate Tree(m: Memory, at: map<Node, Word>)
  {
    && Pml4 in at
    && (forall n :: n in at ==> IsFrame(at[n]))
    && (forall n, k :: n in at && k in at && at[n] == at[k] ==> n == k)
    && (forall n, i :: n in at && !n.Pt? && 0 <= i < ENTRIES ==> EntryOk(m(at[n], i), at, Child(n, i)))
    && (forall n, i :: n in at && n.Pt? && 0 <= i < ENTRIES ==> Present(m(at[n], i)) || m(at[n], i) == 0)
    && (forall n :: n in at ==> n.Pml4? || (Parent(n) in at && LastIndex(n) < ENTRIES))
  }

  function Parent(n: Node): (r: Node)
    requires !n.Pml4?
  {
    match n
    case Pdpt(a) => Pml4
    case Pd(a, b) => Pdpt(a)
    case Pt(a, b, c) => Pd(a, b)
  }

  function LastIndex(n: Node): (i: nat)
    requires !n.Pml4?
  {
    match n
    case Pdpt(a) => a
    case Pd(a, b) => b
    case Pt(a, b, c) => c
  }

  function PtOf(p: Page): (n: Node)
  {
    Pt(p.a, p.b, p.c)
  }

  /** The leaf word of a page, if the page is mapped. */
  ghost predicate Mapped(m: Memory, at: map<Node, Word>, p: Page)
  {
    PtOf(p) in at && p.d < ENTRIES && Present(m(at[PtOf(p)], p.d))
  }

  /** The tree stands for the finite map `pages`. */
  ghost predicate Represents(m: Memory, at: map<Node, Word>, pages: map<Page, Word>)
  {
    && (forall p :: p in pages <==> Mapped(m, at, p))
    && (forall p :: p in pages ==> PtOf(p) in at && pages[p] == m(at[PtOf(p)], p.d))
  }

  ghost predicate OnPath(p: Page, n: Node)
  {
    match n
    case Pml4 => true
    case Pdpt(a) => p.a == a
    case Pd(a, b) => p.a == a && p.b == b
    case Pt(a, b, c) => p.a == a && p.b == b && p.c == c
  }

  ghost predicate Needed(pages: map<Page, Word>, n: Node)
  {
    n.Pml4? || exists p :: p in pages && OnPath(p, n)
  }

  /** A table exists exactly if some mapped page needs it: no table is ever left empty. */
  ghost predicate Canonical(at: map<Node, Word>, pages: map<Page, Word>)
  {
    forall n :: n in at <==> Needed(pages, n)
  }

  /** The non-root tables on the way to `p` that `pages` alone does not need. */
  ghost function PathTail(pages: map<Page, Word>, p: Page): (ns: seq<Node>)
  {
    if !Needed(pages, Pdpt(p.a)) then [Pdpt(p.a), Pd(p.a, p.b), PtOf(p)]
    else if !Needed(pages, Pd(p.a, p.b)) then [Pd(p.a, p.b), PtOf(p)]
    else if !Needed(pages, PtOf(p)) then [PtOf(p)]
    else []
  }

  /** Free frames, tables and handed-out frames never overlap. */
  ghost predicate Apart(free: seq<Word>, at: map<Node, Word>, out: set<Word>)
  {
    && (forall f :: f in free ==> f !in out && f !in at.Values)
    && (forall n :: n in at ==> at[n] !in out)
    && (forall f :: f in out ==> IsFrame(f))
  }

  /** `f` belongs to nobody. */
  ghost predicate Loose(f: Word, free: seq<Word>, at: map<Node, Word>, out: set<Word>)
  {
    IsFrame(f) && f !in free && f !in out && f !in at.Values
  }

  lemma AddTable(free: seq<Word>, at: map<Node, Word>, out: set<Word>, n: Node, f: Word)
    requires Apart(free, at, out) && Loose(f, free, at, out) && n !in at
    ensures Apart(free, at[n := f], out)
  {
    assert forall g :: g in at[n := f].Values ==> g == f || g in at.Values;
  }

  lemma DropTable(free: seq<Word>, m: Memory, at: map<Node, Word>, out: set<Word>, n: Node)
    requires Apart(free, at, out) && Tree(m, at) && n in at
    ensures Apart(free, at - {n}, out) && Loose(at[n], free, at - {n}, out)
  {
    assert at[n] in at.Values;
    forall g | g in (at - {n}).Values ensures g != at[n] && g in at.Values {
      var k :| k in at - {n} && (at - {n})[k] == g;
      assert k in at && at[k] == g;
    }
  }

  // ------------------------------------------------------------- steps on the tree

  /** Hanging a zeroed frame into an absent entry. */
  lemma NewTable(m: Memory, m': Memory, at: map<Node, Word>, n: Node, i: nat, f: Word, w: Word)
    requires Tree(m, at) && n in at && !n.Pt? && i < ENTRIES && !Present(m(at[n], i))
    requires IsFrame(f) && f !in at.Values && Present(w) && Base(w) == f && Has(w, WRITABLE)
    requires forall g, j: nat :: 0 <= j < ENTRIES ==>
               m'(g, j) == if g == at[n] && j == i then w else if g == f then 0 else m(g, j)
    ensures Tree(m', at[Child(n, i) := f])
  {
    var c := Child(n, i);
    var at' := at[c := f];
    assert EntryOk(m(at[n], i), at, c);
    forall k, j | k in at' && !k.Pt? && 0 <= j < ENTRIES ensures EntryOk(m'(at'[k], j), at', Child(k, j)) {
      if k != c {
        assert at'[k] == at[k] && EntryOk(m(at[k], j), at, Child(k, j));
        assert at[k] in at.Values;
        assert Child(k, j) == c ==> k == n && j == i;
      } else {
        assert Parent(Child(k, j)) == k;
      }
    }
    forall k, j | k in at' && k.Pt? && 0 <= j < ENTRIES ensures Present(m'(at'[k], j)) || m'(at'[k], j) == 0 {
      assert k != c ==> at[k] in at.Values;
    }
    forall k, l | k in at' && l in at' && at'[k] == at'[l] ensures k == l {
      assert k != c ==> at[k] in at.Values;
      assert l != c ==> at[l] in at.Values;
    }
  }

  lemma NewTableRepresents(m: Memory, m': Memory, at: map<Node, Word>, n: Node, i: nat, f: Word, pages: map<Page, Word>)
    requires Tree(m, at) && n in at && !n.Pt? && i < ENTRIES && Child(n, i) !in at && f !in at.Values
    requires Represents(m, at, pages)
    requires forall g, j: nat :: 0 <= j < ENTRIES && !(g == at[n] && j == i) ==> m'(g, j) == if g == f then 0 else m(g, j)
    ensures Represents(m', at[Child(n, i) := f], pages)
  {
    var c := Child(n, i);
    var at' := at[c := f];
    forall p ensures Mapped(m', at', p) <==> Mapped(m, at, p) {
      if PtOf(p) in at && p.d < ENTRIES {
        assert at[PtOf(p)] in at.Values;
        assert at'[PtOf(p)] == at[PtOf(p)] != at[n];
      }
      assert Present(0) == false;
    }
    forall p | p in pages ensures pages[p] == m'(at'[PtOf(p)], p.d) {
      assert Mapped(m, at, p) && at[PtOf(p)] in at.Values && at[PtOf(p)] != at[n];
    }
  }

  /** Writing a present word into a page table. */
  lemma SetLeaf(m: Memory, at: map<Node, Word>, p: Page, w: Word, pages: map<Page, Word>)
    requires Tree(m, at) && Represents(m, at, pages) && PtOf(p) in at && p.d < ENTRIES && Present(w)
    ensures Tree(Store(m, at[PtOf(p)], p.d, w), at)
    ensures Represents(Store(m, at[PtOf(p)], p.d, w), at, pages[p := w])
  {
    var m' := Store(m, at[PtOf(p)], p.d, w);
    forall q ensures Mapped(m', at, q) <==> q == p || Mapped(m, at, q) {
      if PtOf(q) in at && at[PtOf(q)] == at[PtOf(p)] { assert PtOf(q) == PtOf(p); }
    }
    forall q | q in pages[p := w] ensures pages[p := w][q] == m'(at[PtOf(q)], q.d) {
      if PtOf(q) in at && at[PtOf(q)] == at[PtOf(p)] { assert PtOf(q) == PtOf(p); }
      assert q != p ==> q in pages && Mapped(m, at, q);
    }
  }

  lemma ClearLeaf(m: Memory, at: map<Node, Word>, p: Page, pages: map<Page, Word>)
    requires Tree(m, at) && Represents(m, at, pages) && p in pages
    ensures Tree(Store(m, at[PtOf(p)], p.d, 0), at)
    ensures Represents(Store(m, at[PtOf(p)], p.d, 0), at, pages - {p})
  {
    var m' := Store(m, at[PtOf(p)], p.d, 0);
    assert Mapped(m, at, p) && !Present(0);
    forall q ensures Mapped(m', at, q) <==> q != p && Mapped(m, at, q) {
      if PtOf(q) in at && at[PtOf(q)] == at[PtOf(p)] { assert PtOf(q) == PtOf(p); }
    }
    forall q | q in pages - {p} ensures (pages - {p})[q] == m'(at[PtOf(q)], q.d) {
      if PtOf(q) in at && at[PtOf(q)] == at[PtOf(p)] { assert PtOf(q) == PtOf(p); }
      assert q in pages && Mapped(m, at, q);
    }
  }

  /** Every table below the root is entered in the table above it. */
  lemma EntryAbove(m: Memory, at: map<Node, Word>, k: Node)
    requires Tree(m, at) && k in at && !k.Pml4?
    ensures Parent(k) in at && LastIndex(k) < ENTRIES
    ensures Present(m(at[Parent(k)], LastIndex(k)))
  {
    assert Child(Parent(k), LastIndex(k)) == k;
    assert EntryOk(m(at[Parent(k)], LastIndex(k)), at, Child(Parent(k), LastIndex(k)));
  }

  /** Every other entry above the leaves stays right when the table of `c` is cut off. */
  lemma CutEntryOk(m: Memory, at: map<Node, Word>, c: Node, k: Node, j: nat)
    requires Tree(m, at) && c in at && !c.Pml4? && Parent(c) in at && LastIndex(c) < ENTRIES
    requires k in at && k != c && !k.Pt? && j < ENTRIES
    ensures EntryOk(Store(m, at[Parent(c)], LastIndex(c), 0)(at[k], j), at - {c}, Child(k, j))
  {
    var n := Parent(c);
    assert Child(n, LastIndex(c)) == c;
    assert EntryOk(m(at[k], j), at, Child(k, j));
    if Child(k, j) == c { assert k == n && j == LastIndex(c); }
    if at[k] == at[n] { assert k == n; }
    assert Child(n, j) == Child(n, LastIndex(c)) ==> j == LastIndex(c);
  }

  /** Cutting an empty table out of the tree. */
  lemma CutTable(m: Memory, at: map<Node, Word>, c: Node)
    requires Tree(m, at) && c in at && !c.Pml4?
    requires forall i :: 0 <= i < ENTRIES ==> !Present(m(at[c], i))
    ensures Parent(c) in at && Tree(Store(m, at[Parent(c)], LastIndex(c), 0), at - {c})
  {
    var n := Parent(c);
    var m', at' := Store(m, at[n], LastIndex(c), 0), at - {c};
    forall k, j | k in at' && !k.Pt? && 0 <= j < ENTRIES ensures EntryOk(m'(at'[k], j), at', Child(k, j)) {
      CutEntryOk(m, at, c, k, j);
    }
    forall k | k in at' ensures k.Pml4? || (Parent(k) in at' && LastIndex(k) < ENTRIES) {
      if !k.Pml4? {
        EntryAbove(m, at, k);
      }
    }
    forall k, j | k in at' && k.Pt? && 0 <= j < ENTRIES ensures Present(m'(at'[k], j)) || m'(at'[k], j) == 0 {
      assert k in at;
    }
  }

  lemma CutTableRepresents(m: Memory, at: map<Node, Word>, c: Node, pages: map<Page, Word>)
    requires Tree(m, at) && Represents(m, at, pages) && c in at && !c.Pml4?
    requires forall i :: 0 <= i < ENTRIES ==> !Present(m(at[c], i))
    ensures Parent(c) in at && Represents(Store(m, at[Parent(c)], LastIndex(c), 0), at - {c}, pages)
  {
    var n := Parent(c);
    var m', at' := Store(m, at[n], LastIndex(c), 0), at - {c};
    assert forall q :: PtOf(q) in at ==> at[PtOf(q)] != at[n];
    forall q ensures Mapped(m', at', q) <==> Mapped(m, at, q) {
    }
    forall q | q in pages ensures PtOf(q) in at' && pages[q] == m'(at'[PtOf(q)], q.d) {
      assert Mapped(m, at, q);
    }
  }

  /** The tables do not notice changes outside their frames. */
  lemma TableFrame(m: Memory, m': Memory, at: map<Node, Word>, pages: map<Page, Word>)
    requires Tree(m, at) && Represents(m, at, pages)
    requires forall g, j: nat :: g in at.Values ==> m'(g, j) == m(g, j)
    ensures Tree(m', at) && Represents(m', at, pages)
  {
    assert forall n :: n in at ==> at[n] in at.Values;
    forall n, i | n in at && !n.Pt? && 0 <= i < ENTRIES ensures EntryOk(m'(at[n], i), at, Child(n, i)) {
      assert EntryOk(m(at[n], i), at, Child(n, i));
    }
    forall p ensures Mapped(m', at, p) <==> Mapped(m, at, p) {
    }
  }

  lemma RootIsIn(m: Memory, at: map<Node, Word>)
    requires Tree(m, at)
    ensures Pml4 in at
  {
  }

  lemma EntryAt(m: Memory, at: map<Node, Word>, n: Node, i: nat)
    requires Tree(m, at) && n in at && !n.Pt? && i < ENTRIES
    ensures EntryOk(m(at[n], i), at, Child(n, i))
    ensures at[n] in at.Values && IsFrame(at[n])
  {
  }

  // ------------------------------------------------------------------ canonical form

  /** The tables on the way to a page. */
  ghost function WithPath(at: map<Node, Word>, ns: seq<Node>, frames: seq<Word>): (r: map<Node, Word>)
    requires |ns| <= |frames|
    decreases |ns|
  {
    if ns == [] then at else WithPath(at[ns[0] := frames[0]], ns[1..], frames[1..])
  }

  lemma {:induction false} WithPathIs(at: map<Node, Word>, ns: seq<Node>, frames: seq<Word>)
    requires |ns| <= |frames| && |ns| <= 3
    ensures WithPath(at, ns, frames) ==
              if |ns| == 0 then at
              else if |ns| == 1 then at[ns[0] := frames[0]]
              else if |ns| == 2 then at[ns[0] := frames[0]][ns[1] := frames[1]]
              else at[ns[0] := frames[0]][ns[1] := frames[1]][ns[2] := frames[2]]
    decreases |ns|
  {
    if |ns| != 0 {
      WithPathIs(at[ns[0] := frames[0]], ns[1..], frames[1..]);
    }
  }

  /** `n` is needed with `p` mapped exactly if it was needed before or lies on the way. */
  lemma NeededAfterMap(pages: map<Page, Word>, p: Page, w: Word, n: Node)
    ensures Needed(pages[p := w], n) <==> Needed(pages, n) || OnPath(p, n)
  {
    if Needed(pages, n) && !n.Pml4? {
      var q :| q in pages && OnPath(q, n);
      assert q in pages[p := w];
    }
    assert p in pages[p := w];
  }

  lemma NeededAfterUnmap(pages: map<Page, Word>, p: Page, n: Node)
    requires p in pages && !OnPath(p, n)
    ensures Needed(pages - {p}, n) <==> Needed(pages, n)
  {
    if Needed(pages, n) {
      var q :| q in pages && OnPath(q, n);
      assert q in pages - {p};
    }
  }

  /** Whoever needs a table needs the tables above it. */
  lemma NeedsParent(pages: map<Page, Word>, n: Node)
    requires !n.Pml4? && Needed(pages, n)
    ensures Needed(pages, Parent(n))
  {
    var q :| q in pages && OnPath(q, n);
    assert OnPath(q, Parent(n));
  }

  /** A table is empty exactly if nothing needs it, once everything that nothing needs
      has been cut off below it. */
  lemma EmptyIffUnneeded(m: Memory, at: map<Node, Word>, pages: map<Page, Word>, n: Node)
    requires Tree(m, at) && Represents(m, at, pages) && n in at && !n.Pml4?
    requires !n.Pt? ==> forall i :: 0 <= i < ENTRIES ==> (Child(n, i) in at <==> Needed(pages, Child(n, i)))
    ensures (forall i :: 0 <= i < ENTRIES ==> !Present(m(at[n], i))) <==> !Needed(pages, n)
  {
    if q :| q in pages && OnPath(q, n) {
      assert Mapped(m, at, q);
      if n.Pt? {
        assert Present(m(at[n], q.d));
      } else {
        var i := if n.Pdpt? then q.b else q.c;
        assert OnPath(q, Child(n, i));
        PathInRange(m, at, q);
        assert EntryOk(m(at[n], i), at, Child(n, i));
      }
    }
    if i :| 0 <= i < ENTRIES && Present(m(at[n], i)) {
      if n.Pt? {
        var q := Page(n.a, n.b, n.c, i);
        assert Mapped(m, at, q);
        assert OnPath(q, n);
      } else {
        assert EntryOk(m(at[n], i), at, Child(n, i));
        NeedsParent(pages, Child(n, i));
        assert Parent(Child(n, i)) == n;
      }
    }
  }

  lemma PathInRange(m: Memory, at: map<Node, Word>, q: Page)
    requires Tree(m, at) && Mapped(m, at, q)
    ensures q.a < ENTRIES && q.b < ENTRIES && q.c < ENTRIES && q.d < ENTRIES
    ensures Pdpt(q.a) in at && Pd(q.a, q.b) in at && PtOf(q) in at
  {
    var pt, pd, pdpt := PtOf(q), Pd(q.a, q.b), Pdpt(q.a);
    assert pt in at && Parent(pt) == pd && LastIndex(pt) == q.c;
    assert pd in at && Parent(pd) == pdpt && LastIndex(pd) == q.b;
    assert pdpt in at && LastIndex(pdpt) == q.a;
  }

  /** Canonical apart from the tables in `open`. */
  ghost predicate CanonicalBut(at: map<Node, Word>, pages: map<Page, Word>, open: set<Node>)
  {
    forall n :: n !in open ==> (n in at <==> Needed(pages, n))
  }

  /** The tables on the way to `p` that are missing from the tree. */
  ghost function Missing(at: map<Node, Word>, p: Page): (ns: seq<Node>)
  {
    if Pdpt(p.a) !in at then [Pdpt(p.a), Pd(p.a, p.b), PtOf(p)]
    else if Pd(p.a, p.b) !in at then [Pd(p.a, p.b), PtOf(p)]
    else if PtOf(p) !in at then [PtOf(p)]
    else []
  }

  lemma MissingIsPathTail(at: map<Node, Word>, pages: map<Page, Word>, p: Page)
    requires Canonical(at, pages)
    ensures Missing(at, p) == PathTail(pages, p)
    ensures Pdpt(p.a) !in at ==> Pd(p.a, p.b) !in at
    ensures Pd(p.a, p.b) !in at ==> PtOf(p) !in at
  {
    if PtOf(p) in at { NeedsParent(pages, PtOf(p)); }
    if Pd(p.a, p.b) in at { NeedsParent(pages, Pd(p.a, p.b)); }
  }

  ghost predicate Extends(at: map<Node, Word>, at': map<Node, Word>)
  {
    forall n :: n in at ==> n in at' && at'[n] == at[n]
  }

  /** The table `c` was there, or was made from the first free frame. */
  ghost predicate Level(at: map<Node, Word>, free: seq<Word>, at': map<Node, Word>, free': seq<Word>, c: Node)
  {
    if c in at then at' == at && free' == free
    else free != [] && at' == at[c := free[0]] && free' == free[1..]
  }

  lemma ThreeLevels(a0: map<Node, Word>, f0: seq<Word>, a1: map<Node, Word>, f1: seq<Word>,
                    a2: map<Node, Word>, f2: seq<Word>, a3: map<Node, Word>, f3: seq<Word>, p: Page)
    requires Level(a0, f0, a1, f1, Pdpt(p.a)) && Level(a1, f1, a2, f2, Pd(p.a, p.b)) && Level(a2, f2, a3, f3, PtOf(p))
    requires Pdpt(p.a) !in a0 ==> Pd(p.a, p.b) !in a0
    requires Pd(p.a, p.b) !in a0 ==> PtOf(p) !in a0
    ensures |Missing(a0, p)| <= |f0| && f3 == f0[|Missing(a0, p)|..] && a3 == WithPath(a0, Missing(a0, p), f0)
    ensures Extends(a0, a1) && Extends(a1, a2) && Extends(a2, a3)
    ensures a1.Keys == a0.Keys + {Pdpt(p.a)} && a2.Keys == a1.Keys + {Pd(p.a, p.b)} && a3.Keys == a2.Keys + {PtOf(p)}
  {
    hide WithPath;
    WithPathIs(a0, Missing(a0, p), f0);
  }

  lemma CanonicalAfterMap(at: map<Node, Word>, at': map<Node, Word>, pages: map<Page, Word>, p: Page, w: Word)
    requires Canonical(at, pages)
    requires at'.Keys == at.Keys + {Pdpt(p.a), Pd(p.a, p.b), PtOf(p)}
    ensures Canonical(at', pages[p := w])
  {
    forall n ensures n in at' <==> Needed(pages[p := w], n) {
      NeededAfterMap(pages, p, w, n);
      assert n in at' <==> n in at || (OnPath(p, n) && !n.Pml4?);
    }
  }

  lemma CanonicalAfterClear(at: map<Node, Word>, pages: map<Page, Word>, p: Page)
    requires Canonical(at, pages) && p in pages
    ensures CanonicalBut(at, pages - {p}, {Pdpt(p.a), Pd(p.a, p.b), PtOf(p)})
    ensures Pdpt(p.a) in at && Pd(p.a, p.b) in at && PtOf(p) in at
  {
    forall n | n !in {Pdpt(p.a), Pd(p.a, p.b), PtOf(p)} ensures n in at <==> Needed(pages - {p}, n) {
      if !n.Pml4? {
        assert !OnPath(p, n);
        NeededAfterUnmap(pages, p, n);
      }
    }
    assert OnPath(p, Pdpt(p.a)) && OnPath(p, Pd(p.a, p.b)) && OnPath(p, PtOf(p));
  }

  /** Settling one open table: it stays exactly if it is needed. */
  lemma Settle(at: map<Node, Word>, at': map<Node, Word>, pages: map<Page, Word>, open: set<Node>, c: Node)
    requires CanonicalBut(at, pages, open) && c in open && c in at
    requires at' == if Needed(pages, c) then at else at - {c}
    ensures CanonicalBut(at', pages, open - {c})
  {
  }

  lemma AllSettled(at: map<Node, Word>, pages: map<Page, Word>)
    requires CanonicalBut(at, pages, {})
    ensures Canonical(at, pages)
  {
  }

  /** A needed table settles the ones above it as well. */
  lemma SettleUp(at: map<Node, Word>, pages: map<Page, Word>, open: set<Node>, c: Node)
    requires CanonicalBut(at, pages, open) && Needed(pages, c) && c in at
    requires forall n :: n in open ==> n in at && !c.Pml4? && (n == Parent(c) || (!Parent(c).Pml4? && n == Parent(Parent(c))))
    ensures Canonical(at, pages)
    ensures !c.Pml4? ==> Needed(pages, Parent(c))
    ensures !c.Pml4? && !Parent(c).Pml4? ==> Needed(pages, Parent(Parent(c)))
  {
    if !c.Pml4? {
      NeedsParent(pages, c);
      if !Parent(c).Pml4? { NeedsParent(pages, Parent(c)); }
    }
  }

  ghost function FramesOf(at: map<Node, Word>, ns: seq<Node>): (fs: seq<Word>)
    requires forall n :: n in ns ==> n in at
    ensures |fs| == |ns|
  {
    if ns == [] then [] else [at[ns[0]]] + FramesOf(at, ns[1..])
  }

  lemma UnneededBelow(pages: map<Page, Word>, p: Page)
    ensures !Needed(pages, Pdpt(p.a)) ==> !Needed(pages, Pd(p.a, p.b))
    ensures !Needed(pages, Pd(p.a, p.b)) ==> !Needed(pages, PtOf(p))
  {
    if Needed(pages, PtOf(p)) { NeedsParent(pages, PtOf(p)); }
    if Needed(pages, Pd(p.a, p.b)) { NeedsParent(pages, Pd(p.a, p.b)); }
  }

  /** What freeing a tail of the way amounts to. */
  lemma {:induction false} FramesOfIs(at: map<Node, Word>, ns: seq<Node>)
    requires |ns| <= 3 && forall n :: n in ns ==> n in at
    ensures FramesOf(at, ns) == seq(|ns|, i requires 0 <= i < |ns| => assert ns[i] in ns; at[ns[i]])
    ensures (set n | n in ns) == (if 0 < |ns| then {ns[0]} else {}) + (if 1 < |ns| then {ns[1]} else {})
                                 + (if 2 < |ns| then {ns[2]} else {})
    decreases |ns|
  {
    if ns != [] {
      FramesOfIs(at, ns[1..]);
    }
  }

  /** A walk that finds every level present ends at a mapped page, and only then. */
  lemma WalkFinds(m: Memory, at: map<Node, Word>, pages: map<Page, Word>, p: Page)
    requires Tree(m, at) && Represents(m, at, pages)
    requires p.a < ENTRIES && p.b < ENTRIES && p.c < ENTRIES && p.d < ENTRIES
    ensures p in pages ==> Pdpt(p.a) in at && Pd(p.a, p.b) in at && PtOf(p) in at
    ensures p in pages <==> PtOf(p) in at && Present(m(at[PtOf(p)], p.d))
    ensures p in pages ==> pages[p] == m(at[PtOf(p)], p.d)
  {
    if p in pages {
      assert Mapped(m, at, p);
      PathInRange(m, at, p);
    } else {
      assert !Mapped(m, at, p);
    }
  }

  lemma PathTailMissing(at: map<Node, Word>, pages: map<Page, Word>, p: Page)
    requires Canonical(at, pages)
    ensures forall n :: n in PathTail(pages, p) ==> n !in at
    ensures |PathTail(pages, p)| <= 3
    ensures forall i, j :: 0 <= i < j < |PathTail(pages, p)| ==> PathTail(pages, p)[i] != PathTail(pages, p)[j]
  {
    UnneededBelow(pages, p);
  }

  /** Adding a way and cutting it off again, in frames and in tables. */
  lemma {:induction false} PathUndone(at: map<Node, Word>, ns: seq<Node>, frames: seq<Word>)
    requires |ns| <= |frames|
    requires forall n :: n in ns ==> n !in at
    requires forall i, j :: 0 <= i < j < |ns| ==> ns[i] != ns[j]
    ensures forall n :: n in ns ==> n in WithPath(at, ns, frames)
    ensures FramesOf(WithPath(at, ns, frames), ns) + frames[|ns|..] == frames
    ensures WithPath(at, ns, frames) - (set n | n in ns) == at
    decreases |ns|
  {
    if ns != [] {
      var at', rest := at[ns[0] := frames[0]], ns[1..];
      assert forall i :: 0 <= i < |rest| ==> rest[i] == ns[i + 1];
      PathUndone(at', rest, frames[1..]);
      WithPathKeeps(at', rest, frames[1..], ns[0]);
      var r := WithPath(at, ns, frames);
      assert FramesOf(r, ns) == [frames[0]] + FramesOf(r, rest);
      assert frames[1..][|rest|..] == frames[|ns|..];
      assert r - (set n | n in ns) == (r - (set n | n in rest)) - {ns[0]};
    }
  }

  lemma {:induction false} WithPathKeeps(at: map<Node, Word>, ns: seq<Node>, frames: seq<Word>, n: Node)
    requires |ns| <= |frames| && n in at && n !in ns
    ensures n in WithPath(at, ns, frames) && WithPath(at, ns, frames)[n] == at[n]
    decreases |ns|
  {
    if ns != [] {
      WithPathKeeps(at[ns[0] := frames[0]], ns[1..], frames[1..], n);
    }
  }
}
