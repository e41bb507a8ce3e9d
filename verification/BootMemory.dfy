/** Which frames the firmware's memory map puts on the free list: conventional memory
    first, loader and boot-services memory once the kernel runs in the higher half. */
module BootMemory {

  const PAGE_SIZE: nat := 4096

  datatype Kind = Conventional | LoaderCode | LoaderData | BootServicesCode | BootServicesData | Other

  datatype Descriptor = Descriptor(kind: Kind, start: nat, pages: nat) {
    function End(): nat { start + pages * PAGE_SIZE }
  }

  /** A region the kernel depends on, up to but not including `end`. */
  datatype Region = Region(start: nat, end: nat)

  datatype Phase = Init | Reclaim

  predicate Selected(phase: Phase, kind: Kind)
  {
    match phase
    case Init => kind == Conventional
    case Reclaim => kind in {LoaderCode, LoaderData, BootServicesCode, BootServicesData}
  }

  /** `page_overlaps`: both ends inclusive. */
  predicate PageOverlaps(pageStart: nat, pageEnd: nat, regionStart: nat, regionEnd: nat)
  {
    pageStart <= regionEnd && pageEnd >= regionStart
  }

  predicate InPage(page: nat, x: nat)
  {
    page <= x < page + PAGE_SIZE
  }

  predicate InRegion(r: Region, x: nat)
  {
    r.start <= x < r.end
  }

  ghost predicate Shares(page: nat, r: Region)
  {
    exists x: nat :: InPage(page, x) && InRegion(r, x)
  }

  /** Because both ends count, a page that starts where the region ends is set aside too,
      and an empty region sets aside the page it lies in. */
  lemma OverlapsIff(page: nat, r: Region)
    requires r.start <= r.end
    ensures PageOverlaps(page, page + PAGE_SIZE - 1, r.start, r.end) <==>
            Shares(page, r) || page == r.end || (r.start == r.end && page <= r.end < page + PAGE_SIZE)
  {
    if InPage(page, r.start) && r.start < r.end {
      assert InRegion(r, r.start);
    } else if InRegion(r, page) {
      assert InPage(page, page);
    }
  }

  predicate Usable(page: nat, regions: seq<Region>)
  {
    && page != 0
    && forall i :: 0 <= i < |regions| ==> !PageOverlaps(page, page + PAGE_SIZE - 1, regions[i].start, regions[i].end)
  }

  function PagesOf(d: Descriptor, regions: seq<Region>, n: nat): (r: seq<nat>)
  {
    if n == 0 then []
    else
      var page := d.start + (n - 1) * PAGE_SIZE;
      PagesOf(d, regions, n - 1) + if Usable(page, regions) then [page] else []
  }

  function Freed(phase: Phase, descriptors: seq<Descriptor>, regions: seq<Region>, n: nat): (r: seq<nat>)
    requires n <= |descriptors|
  {
    if n == 0 then []
    else
      var d := descriptors[n - 1];
      Freed(phase, descriptors, regions, n - 1) + if Selected(phase, d.kind) then PagesOf(d, regions, d.pages) else []
  }

  /** Where a freed page comes from. */
  ghost predicate Origin(d: Descriptor, k: nat, page: nat)
  {
    k < d.pages && OnPage(d, k, page)
  }

  predicate OnPage(d: Descriptor, k: nat, page: nat)
  {
    page == d.start + k * PAGE_SIZE
  }

  lemma {:induction false} PagesOfIff(d: Descriptor, regions: seq<Region>, n: nat, page: nat)
    ensures page in PagesOf(d, regions, n) <==>
            Usable(page, regions) && exists k: nat :: k < n && OnPage(d, k, page)
  {
    if n > 0 {
      PagesOfIff(d, regions, n - 1, page);
      if page == d.start + (n - 1) * PAGE_SIZE {
        assert OnPage(d, n - 1, page);
      }
    }
  }

  lemma {:induction false} PagesOfDistinct(d: Descriptor, regions: seq<Region>, n: nat)
    ensures Distinct(PagesOf(d, regions, n))
  {
    if n > 0 {
      PagesOfDistinct(d, regions, n - 1);
      PagesOfIff(d, regions, n - 1, d.start + (n - 1) * PAGE_SIZE);
    }
  }

  ghost predicate Distinct(s: seq<nat>)
  {
    forall i, j :: 0 <= i < j < |s| ==> s[i] != s[j]
  }

  /** Exactly the usable pages of the selected descriptors are freed. */
  lemma {:induction false} FreedIff(phase: Phase, descriptors: seq<Descriptor>, regions: seq<Region>, n: nat, page: nat)
    requires n <= |descriptors|
    ensures page in Freed(phase, descriptors, regions, n) <==>
            Usable(page, regions) &&
            exists i: nat, k: nat :: i < n && Selected(phase, descriptors[i].kind) && Origin(descriptors[i], k, page)
  {
    hide Usable, Selected;
    if n > 0 {
      FreedIff(phase, descriptors, regions, n - 1, page);
      var d := descriptors[n - 1];
      PagesOfIff(d, regions, d.pages, page);
      assert forall k: nat :: k < d.pages && OnPage(d, k, page) ==> Origin(descriptors[n - 1], k, page);
    }
  }

  /** The firmware's descriptors do not overlap and are page-aligned. */
  ghost predicate WellFormed(descriptors: seq<Descriptor>)
  {
    && (forall i :: 0 <= i < |descriptors| ==> descriptors[i].start % PAGE_SIZE == 0)
    && (forall i, j :: 0 <= i < j < |descriptors| ==>
          descriptors[i].End() <= descriptors[j].start || descriptors[j].End() <= descriptors[i].start)
  }

  /** A page belongs to one descriptor. */
  lemma OneOrigin(descriptors: seq<Descriptor>, i: nat, k: nat, j: nat, l: nat, page: nat)
    requires WellFormed(descriptors) && i < |descriptors| && j < |descriptors| && Origin(descriptors[i], k, page)
    ensures Origin(descriptors[j], l, page) ==> i == j
  {
    assert descriptors[i].start <= page < descriptors[i].End();
  }

  lemma {:induction false} FreedDistinct(phase: Phase, descriptors: seq<Descriptor>, regions: seq<Region>, n: nat)
    requires WellFormed(descriptors) && n <= |descriptors|
    ensures Distinct(Freed(phase, descriptors, regions, n))
  {
    hide Usable, Selected;
    if n > 0 {
      var d := descriptors[n - 1];
      var a, b := Freed(phase, descriptors, regions, n - 1), PagesOf(d, regions, d.pages);
      FreedDistinct(phase, descriptors, regions, n - 1);
      PagesOfDistinct(d, regions, d.pages);
      forall page | page in a ensures page !in b {
        NotTwice(phase, descriptors, regions, n, page);
      }
      DistinctConcat(a, b);
    }
  }

  lemma NotTwice(phase: Phase, descriptors: seq<Descriptor>, regions: seq<Region>, n: nat, page: nat)
    requires WellFormed(descriptors) && 1 <= n <= |descriptors| && page in Freed(phase, descriptors, regions, n - 1)
    ensures page !in PagesOf(descriptors[n - 1], regions, descriptors[n - 1].pages)
  {
    hide Usable, Selected;
    var d := descriptors[n - 1];
    FreedIff(phase, descriptors, regions, n - 1, page);
    PagesOfIff(d, regions, d.pages, page);
    var i: nat, k: nat :| i < n - 1 && Selected(phase, descriptors[i].kind) && Origin(descriptors[i], k, page);
    forall l: nat ensures !Origin(d, l, page) {
      OneOrigin(descriptors, i, k, n - 1, l, page);
    }
  }

  lemma DistinctConcat(a: seq<nat>, b: seq<nat>)
    requires Distinct(a) && Distinct(b) && forall x :: x in a ==> x !in b
    ensures Distinct(a + b)
  {
    forall i, j | 0 <= i < j < |a + b| ensures (a + b)[i] != (a + b)[j] {
      if i < |a| <= j { assert a[i] in a && b[j - |a|] in b; }
    }
  }

  ghost predicate Safe(page: nat, regions: seq<Region>)
  {
    page != 0 && page % PAGE_SIZE == 0 && forall i :: 0 <= i < |regions| ==> !Shares(page, regions[i])
  }

  /** What the free list may rely on: no page twice, none of them null, all aligned, and
      none shares a byte with a protected region. */
  lemma FreedIsSafe(phase: Phase, descriptors: seq<Descriptor>, regions: seq<Region>)
    requires WellFormed(descriptors)
    ensures Distinct(Freed(phase, descriptors, regions, |descriptors|))
    ensures forall page :: page in Freed(phase, descriptors, regions, |descriptors|) ==> Safe(page, regions)
  {
    FreedDistinct(phase, descriptors, regions, |descriptors|);
    forall page | page in Freed(phase, descriptors, regions, |descriptors|) ensures Safe(page, regions) {
      FreedIff(phase, descriptors, regions, |descriptors|, page);
      var j: nat, k: nat :| j < |descriptors| && Selected(phase, descriptors[j].kind) && Origin(descriptors[j], k, page);
      AlignedPage(descriptors[j].start, k);
    }
  }

  lemma AlignedPage(start: nat, k: nat)
    requires start % PAGE_SIZE == 0
    ensures (start + k * PAGE_SIZE) % PAGE_SIZE == 0
  {
    assert start + k * PAGE_SIZE == PAGE_SIZE * (start / PAGE_SIZE + k);
  }

  /** The second phase frees nothing that the first one already did. */
  lemma NoDoubleFree(descriptors: seq<Descriptor>, regions: seq<Region>, others: seq<Region>, page: nat)
    requires WellFormed(descriptors) && page in Freed(Init, descriptors, regions, |descriptors|)
    ensures page !in Freed(Reclaim, descriptors, others, |descriptors|)
  {
    hide Usable;
    FreedIff(Init, descriptors, regions, |descriptors|, page);
    FreedIff(Reclaim, descriptors, others, |descriptors|, page);
    var i: nat, k: nat :| i < |descriptors| && Selected(Init, descriptors[i].kind) && Origin(descriptors[i], k, page);
    forall j: nat, l: nat | j < |descriptors| && Selected(Reclaim, descriptors[j].kind)
      ensures !Origin(descriptors[j], l, page)
    {
      OneOrigin(descriptors, i, k, j, l, page);
    }
  }

  /** The page is not null, shares no byte with a region, and does not start where one
      ends; nor does it hold the address of an empty one. */
  ghost predicate Clear(page: nat, regions: seq<Region>)
  {
    && page != 0
    && forall i :: 0 <= i < |regions| ==>
         && !Shares(page, regions[i]) && page != regions[i].end
         && !(regions[i].start == regions[i].end && InPage(page, regions[i].end))
  }

  ghost predicate Ordered(regions: seq<Region>)
  {
    forall i :: 0 <= i < |regions| ==> regions[i].start <= regions[i].end
  }

  lemma UsableIff(page: nat, regions: seq<Region>)
    requires Ordered(regions)
    ensures Usable(page, regions) <==> Clear(page, regions)
  {
    hide PageOverlaps, Shares;
    forall i | 0 <= i < |regions|
      ensures PageOverlaps(page, page + PAGE_SIZE - 1, regions[i].start, regions[i].end) <==>
              Shares(page, regions[i]) || page == regions[i].end
              || (regions[i].start == regions[i].end && InPage(page, regions[i].end))
    {
      OverlapsIff(page, regions[i]);
    }
  }

  /** Exactly the kinds that the firmware hands over, each in its phase: conventional memory
      at once, loader and boot-services memory at the reclamation, anything else never. */
  lemma FreedByKind(descriptors: seq<Descriptor>, regions: seq<Region>, others: seq<Region>, i: nat, k: nat)
    requires WellFormed(descriptors) && i < |descriptors| && k < descriptors[i].pages
    requires Ordered(regions) && Ordered(others)
    ensures var page, kind := descriptors[i].start + k * PAGE_SIZE, descriptors[i].kind;
            && (page in Freed(Init, descriptors, regions, |descriptors|) <==>
                  kind == Conventional && Clear(page, regions))
            && (page in Freed(Reclaim, descriptors, others, |descriptors|) <==>
                  (kind == LoaderCode || kind == LoaderData || kind == BootServicesCode || kind == BootServicesData)
                  && Clear(page, others))
  {
    var page := descriptors[i].start + k * PAGE_SIZE;
    hide Usable, Clear;
    UsableIff(page, regions);
    UsableIff(page, others);
    FreedWithItsKind(Init, descriptors, regions, i, k, page);
    FreedWithItsKind(Reclaim, descriptors, others, i, k, page);
  }

  lemma FreedWithItsKind(phase: Phase, descriptors: seq<Descriptor>, regions: seq<Region>, i: nat, k: nat, page: nat)
    requires WellFormed(descriptors) && i < |descriptors| && Origin(descriptors[i], k, page)
    ensures page in Freed(phase, descriptors, regions, |descriptors|) <==>
            Selected(phase, descriptors[i].kind) && Usable(page, regions)
  {
    hide Usable, Selected;
    FreedIff(phase, descriptors, regions, |descriptors|, page);
    forall j: nat, l: nat | j < |descriptors| && Origin(descriptors[j], l, page) ensures i == j {
      OneOrigin(descriptors, i, k, j, l, page);
    }
  }

  /** And nothing that is in no descriptor. */
  lemma FreedIsDescribed(phase: Phase, descriptors: seq<Descriptor>, regions: seq<Region>, page: nat)
    requires page in Freed(phase, descriptors, regions, |descriptors|)
    ensures exists i: nat, k: nat :: i < |descriptors| && Origin(descriptors[i], k, page) && descriptors[i].kind != Other
  {
    FreedIff(phase, descriptors, regions, |descriptors|, page);
  }

  /** The nested loops of `init` and of `reclaim_boot_memory`, recording the calls of
      `free_page`. */
  method FreePages(phase: Phase, descriptors: seq<Descriptor>, regions: seq<Region>) returns (freed: seq<nat>)
    ensures freed == Freed(phase, descriptors, regions, |descriptors|)
  {
    freed := [];
    for n := 0 to |descriptors|
      invariant freed == Freed(phase, descriptors, regions, n)
    {
      var d := descriptors[n];
      if !Selected(phase, d.kind) {
        continue;
      }
      ghost var before := freed;
      for i := 0 to d.pages
        invariant freed == before + PagesOf(d, regions, i)
      {
        var page := d.start + i * PAGE_SIZE;
        if page == 0 {
          continue;
        }
        var hit := HitsRegion(page, regions);
        if hit {
          continue;
        }
        freed := freed + [page];
      }
    }
  }

  method HitsRegion(page: nat, regions: seq<Region>) returns (hit: bool)
    ensures hit <==> exists i :: 0 <= i < |regions| &&
                       PageOverlaps(page, page + PAGE_SIZE - 1, regions[i].start, regions[i].end)
  {
    for i := 0 to |regions|
      invariant forall j :: 0 <= j < i ==>
                  !PageOverlaps(page, page + PAGE_SIZE - 1, regions[j].start, regions[j].end)
    {
      if PageOverlaps(page, page + PAGE_SIZE - 1, regions[i].start, regions[i].end) {
        return true;
      }
    }
    return false;
  }
}
