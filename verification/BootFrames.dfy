/** From the boot phase to the memory manager: the page addresses that are freed, as
    64-bit words, are what the manager may start from. */
module BootFrames {
  import opened Basics
  import B = BootMemory
  import opened PageWords
  import opened MemoryManager

  // The three operations on words that the conversion needs. Lemmas about single words see
  // their bodies, lemmas about numbers do not.

  function Half(w: Word): (h: Word)
  {
    w >> 1
  }

  function Twice(w: Word, odd: bool): (t: Word)
  {
    if odd then (w << 1) | 1 else w << 1
  }

  predicate Odd(w: Word)
  {
    w & 1 == 1
  }

  /** Doubling such a word loses nothing. */
  predicate TopClear(w: Word)
  {
    w & 0x8000_0000_0000_0000 == 0
  }

  function Half8(w: Word): (h: Word)
  {
    Half(Half(Half(Half(Half(Half(Half(Half(w))))))))
  }

  lemma HalfOfTwice(w: Word, odd: bool)
    requires TopClear(w)
    ensures Half(Twice(w, odd)) == w && (Odd(Twice(w, odd)) <==> odd)
  {
  }

  lemma TopClearIf(w: Word)
    requires Half(Half(Half(Half(Half(Half(Half(Half8(Half8(Half8(Half8(Half8(Half8(Half8(w)))))))))))))) == 0
    ensures TopClear(w)
  {
  }

  lemma Zeros()
    ensures Half(0) == 0 && Twice(0, false) == 0
  {
  }

  function Twice4(w: Word): (t: Word)
  {
    Twice(Twice(Twice(Twice(w, false), false), false), false)
  }

  lemma TwiceIsAligned(w: Word)
    ensures Base(Twice4(Twice4(Twice4(w)))) == Twice4(Twice4(Twice4(w)))
  {
  }

  // --------------------------------------------------------------- numbers as words

  /** The word with the binary digits of `n`. */
  function WordOf(n: nat): (w: Word)
  {
    if n == 0 then 0 else Twice(WordOf(n / 2), n % 2 == 1)
  }

  /** The number that the lowest `k` bits of a word denote. */
  function Value(w: Word, k: nat): (n: nat)
  {
    if k == 0 then 0 else 2 * Value(Half(w), k - 1) + (if Odd(w) then 1 else 0)
  }

  /** The word has at most `k` digits. */
  predicate Short(w: Word, k: nat)
  {
    if k == 0 then w == 0 else Short(Half(w), k - 1)
  }

  lemma ShortStep(w: Word, k: nat)
    ensures Short(w, k + 1) <==> Short(Half(w), k)
  {
    hide Half;
  }

  lemma ShortBy8(w: Word, k: nat)
    ensures Short(w, k + 8) <==> Short(Half8(w), k)
  {
    hide Half, Short;
    ShortStep(w, k + 7);
    ShortStep(Half(w), k + 6);
    ShortStep(Half(Half(w)), k + 5);
    ShortStep(Half(Half(Half(w))), k + 4);
    ShortStep(Half(Half(Half(Half(w)))), k + 3);
    ShortStep(Half(Half(Half(Half(Half(w))))), k + 2);
    ShortStep(Half(Half(Half(Half(Half(Half(w)))))), k + 1);
    ShortStep(Half(Half(Half(Half(Half(Half(Half(w))))))), k);
  }

  lemma {:induction false} ShortTo63(w: Word, k: nat)
    requires Short(w, k) && k <= 63
    ensures Short(w, 63)
    decreases 63 - k
  {
    hide Half;
    if k < 63 {
      ShortLonger(w, k);
      ShortTo63(w, k + 1);
    }
  }

  lemma {:induction false} ShortLonger(w: Word, k: nat)
    requires Short(w, k)
    ensures Short(w, k + 1)
    decreases k
  {
    hide Half;
    if k == 0 { Zeros(); } else { ShortLonger(Half(w), k - 1); }
  }

  lemma SevenDigits(w: Word)
    requires Short(w, 7)
    ensures Half(Half(Half(Half(Half(Half(Half(w))))))) == 0
  {
    hide Half, Short;
    ShortStep(w, 6);
    ShortStep(Half(w), 5);
    ShortStep(Half(Half(w)), 4);
    ShortStep(Half(Half(Half(w))), 3);
    ShortStep(Half(Half(Half(Half(w)))), 2);
    ShortStep(Half(Half(Half(Half(Half(w))))), 1);
    ShortStep(Half(Half(Half(Half(Half(Half(w)))))), 0);
    ShortZero(Half(Half(Half(Half(Half(Half(Half(w))))))));
  }

  lemma ShortZero(w: Word)
    requires Short(w, 0)
    ensures w == 0
  {
  }

  lemma NoTopBit(w: Word, k: nat)
    requires Short(w, k) && k <= 63
    ensures TopClear(w)
  {
    hide Short, Half, Half8, TopClear;
    ShortTo63(w, k);
    ShortBy8(w, 55);
    ShortBy8(Half8(w), 47);
    ShortBy8(Half8(Half8(w)), 39);
    ShortBy8(Half8(Half8(Half8(w))), 31);
    ShortBy8(Half8(Half8(Half8(Half8(w)))), 23);
    ShortBy8(Half8(Half8(Half8(Half8(Half8(w))))), 15);
    ShortBy8(Half8(Half8(Half8(Half8(Half8(Half8(w)))))), 7);
    SevenDigits(Half8(Half8(Half8(Half8(Half8(Half8(Half8(w))))))));
    TopClearIf(w);
  }

  /** Also for zero, whose digits are all zero. */
  lemma DigitsOf(n: nat)
    ensures WordOf(n) == Twice(WordOf(n / 2), n % 2 == 1)
  {
    hide Twice;
    if n == 0 { Zeros(); }
  }

  lemma {:induction false} WordIsShort(n: nat, k: nat)
    requires n < Pow2(k) && k <= 64
    ensures Short(WordOf(n), k) && Value(WordOf(n), k) == n
    decreases k
  {
    hide Half, Twice, Odd, TopClear, WordOf;
    if k == 0 {
      WordOfZero();
    } else {
      WordIsShort(n / 2, k - 1);
      NoTopBit(WordOf(n / 2), k - 1);
      HalfOfTwice(WordOf(n / 2), n % 2 == 1);
      DigitsOf(n);
    }
  }

  lemma WordOfZero()
    ensures WordOf(0) == 0
  {
  }

  /** Distinct addresses are distinct words. */
  lemma WordsDiffer(a: nat, b: nat)
    requires a < Pow2(64) && b < Pow2(64)
    ensures WordOf(a) == WordOf(b) <==> a == b
  {
    hide WordOf, Short, Value;
    WordIsShort(a, 64);
    WordIsShort(b, 64);
  }

  lemma Doubled(m: nat)
    ensures WordOf(2 * m) == Twice(WordOf(m), false)
  {
    hide Twice;
    DigitsOf(2 * m);
  }

  lemma Doubled4(m: nat)
    ensures WordOf(16 * m) == Twice4(WordOf(m))
  {
    hide WordOf, Twice;
    Doubled(m);
    Doubled(2 * m);
    Doubled(4 * m);
    Doubled(8 * m);
    assert 2 * (8 * m) == 16 * m && 2 * (4 * m) == 8 * m && 2 * (2 * m) == 4 * m;
  }

  lemma AlignedWord(n: nat)
    requires n % PAGE_SIZE == 0
    ensures Base(WordOf(n)) == WordOf(n)
  {
    hide WordOf, Base, Twice4;
    var m := n / PAGE_SIZE;
    Doubled4(m);
    Doubled4(16 * m);
    Doubled4(256 * m);
    assert 16 * (16 * m) == 256 * m && 16 * (256 * m) == n;
    TwiceIsAligned(WordOf(m));
  }

  lemma FrameWord(n: nat)
    requires n % PAGE_SIZE == 0 && 0 < n < Pow2(64)
    ensures IsFrame(WordOf(n))
  {
    hide WordOf, Base;
    AlignedWord(n);
    WordsDiffer(n, 0);
    WordOfZero();
  }

  function Words(pages: seq<nat>): (ws: seq<Word>)
    ensures |ws| == |pages|
    ensures forall i :: 0 <= i < |pages| ==> ws[i] == WordOf(pages[i])
  {
    seq(|pages|, i requires 0 <= i < |pages| => WordOf(pages[i]))
  }

  /** Seeding the manager with the pages that the boot phase frees is legal: they are
      frames, and no two are the same. */
  method StartManager(descriptors: seq<B.Descriptor>, regions: seq<B.Region>) returns (m: Manager)
    requires B.WellFormed(descriptors) && B.Freed(B.Init, descriptors, regions, |descriptors|) != []
    requires forall i :: 0 <= i < |descriptors| ==> descriptors[i].End() < Pow2(64)
    ensures fresh(m) && m.Valid() && m.pages == map[] && m.out == {}
    ensures var f := Words(B.Freed(B.Init, descriptors, regions, |descriptors|));
            m.root == f[|f| - 1] && m.free == Reversed(f[..|f| - 1])
  {
    hide WordOf, IsFrame, Pow2;
    var pages := B.FreePages(B.Init, descriptors, regions);
    B.FreedIsSafe(B.Init, descriptors, regions);
    forall i | 0 <= i < |pages| ensures IsFrame(WordOf(pages[i])) && pages[i] < Pow2(64) {
      FreedIsBelow(descriptors, regions, pages[i]);
      assert B.Safe(pages[i], regions);
      FrameWord(pages[i]);
    }
    forall i, j | 0 <= i < j < |pages| ensures WordOf(pages[i]) != WordOf(pages[j]) {
      WordsDiffer(pages[i], pages[j]);
    }
    m := new Manager(Words(pages));
  }

  lemma FreedIsBelow(descriptors: seq<B.Descriptor>, regions: seq<B.Region>, page: nat)
    requires page in B.Freed(B.Init, descriptors, regions, |descriptors|)
    requires forall i :: 0 <= i < |descriptors| ==> descriptors[i].End() < Pow2(64)
    ensures page < Pow2(64)
  {
    B.FreedIff(B.Init, descriptors, regions, |descriptors|, page);
    var i: nat, k: nat :| i < |descriptors| && B.Selected(B.Init, descriptors[i].kind) && B.Origin(descriptors[i], k, page);
    assert page < descriptors[i].End();
  }
}
