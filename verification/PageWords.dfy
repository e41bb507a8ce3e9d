/** Page-table words and virtual addresses: which bits mean what, and which of them
    survive a mapping. Words are 64-bit vectors; virtual addresses are numbers. */
module PageWords {

  type Word = bv64

  const PRESENT: Word := 1
  const WRITABLE: Word := 2
  const USER: Word := 4
  const NX: Word := 0x8000_0000_0000_0000
  const LOW: Word := 0xFFF
  const ENTRIES: nat := 512
  const PAGE_SIZE: nat := 4096

  predicate Present(w: Word)
  {
    w & PRESENT != 0
  }

  /** The word has a bit of the mask. */
  predicate Has(w: Word, bit: Word)
  {
    w & bit != 0
  }

  /** `entry & !0xFFF`: the frame that an entry points at. */
  function Base(w: Word): (b: Word)
  {
    w & !LOW
  }

  /** A usable frame address: page-aligned and not the null page. */
  predicate IsFrame(f: Word)
  {
    Base(f) == f && f != 0
  }

  lemma FrameIsNotNull(f: Word)
    requires IsFrame(f)
    ensures f != 0
  {
  }

  /** Flags of a newly created intermediate table. */
  function TableFlags(user: bool): (f: Word)
  {
    if user then PRESENT | WRITABLE | USER else PRESENT | WRITABLE
  }

  /** The word written into a page table for a mapping. */
  function Leaf(physical: Word, flags: Word): (w: Word)
  {
    (physical & !LOW) | flags | PRESENT
  }

  lemma TableEntry(frame: Word, user: bool)
    requires IsFrame(frame)
    ensures Present(frame | TableFlags(user)) && Base(frame | TableFlags(user)) == frame
    ensures Has(frame | TableFlags(user), WRITABLE) && (Has(frame | TableFlags(user), USER) <==> user)
  {
  }

  lemma LeafIsPresent(physical: Word, flags: Word)
    ensures Present(Leaf(physical, flags))
  {
  }

  /** A mapping has the rights its flags ask for. */
  lemma LeafRights(physical: Word, flags: Word)
    ensures Has(Leaf(physical, flags), WRITABLE) <==> Has(flags, WRITABLE)
    ensures Has(Leaf(physical, flags), USER) <==> Has(flags, USER)
  {
  }

  /** Its low twelve bits are the flags, and present. */
  lemma LeafLow(physical: Word, flags: Word)
    ensures Leaf(physical, flags) & LOW == (flags | PRESENT) & LOW
  {
  }

  /** The rest is the frame and whatever the flags add to it. */
  lemma LeafBase(physical: Word, flags: Word)
    ensures Base(Leaf(physical, flags)) == Base(physical | flags)
  {
  }

  /** A mapping translates back to its frame exactly if its flags set no bit above bit
      11 that the frame address does not have. */
  lemma TranslationIsExactIff(physical: Word, flags: Word)
    ensures Base(Leaf(physical, flags)) == Base(physical) <==> flags & !LOW & !physical == 0
  {
  }

  /** With the no-execute bit the translation is wrong for every frame below 2^63. */
  lemma NxLeaksIntoTheAddress(physical: Word, flags: Word)
    requires physical & NX == 0
    ensures Base(Leaf(physical, flags | NX)) != Base(physical)
  {
  }

  // ------------------------------------------------------------- virtual addresses

  /** A page of the 48-bit address space, as the four table indices. */
  datatype Page = Page(a: nat, b: nat, c: nat, d: nat)

  function PageOf(va: nat): (p: Page)
    ensures p.a < ENTRIES && p.b < ENTRIES && p.c < ENTRIES && p.d < ENTRIES
  {
    Page(va / 0x80_0000_0000 % ENTRIES, va / 0x4000_0000 % ENTRIES, va / 0x20_0000 % ENTRIES, va / 0x1000 % ENTRIES)
  }

  /** Splitting a number into a base-512 digit and the rest. */
  lemma Digit(n: nat)
    ensures n == 512 * (n / 512) + n % 512
  {
  }

  /** The four indices are exactly bits 47 to 12. */
  lemma SamePageIff(va: nat, vb: nat)
    ensures PageOf(va) == PageOf(vb) <==> va / PAGE_SIZE % 0x10_0000_0000 == vb / PAGE_SIZE % 0x10_0000_0000
  {
    var n, m := va / 0x1000, vb / 0x1000;
    assert va / 0x20_0000 == n / 512 && va / 0x4000_0000 == n / 512 / 512 && va / 0x80_0000_0000 == n / 512 / 512 / 512;
    assert vb / 0x20_0000 == m / 512 && vb / 0x4000_0000 == m / 512 / 512 && vb / 0x80_0000_0000 == m / 512 / 512 / 512;
    Digits(n);
    Digits(m);
  }

  function Low36(a: nat, b: nat, c: nat, d: nat): (n: nat)
  {
    512 * (512 * (512 * a + b) + c) + d
  }

  lemma Digits(n: nat)
    ensures n % 0x10_0000_0000
         == Low36(n / 512 / 512 / 512 % 512, n / 512 / 512 % 512, n / 512 % 512, n % 512)
  {
    Digit(n);
    Digit(n / 512);
    Digit(n / 512 / 512);
    Digit(n / 512 / 512 / 512);
  }
}
