/** Stacked page locks: a count per page stands for the live ranges that touch it. */
module LockedPages {
  import opened Powers

  datatype Range = Range(base: nat, size: nat)

  /** The page an address lies in: the address with the bits below the page size cleared. */
  function PageOf(pageSize: nat, address: nat): (page: nat)
    requires pageSize > 0
  {
    address / pageSize * pageSize
  }

  lemma PageOfFacts(pageSize: nat, address: nat)
    requires pageSize > 0
    ensures PageOf(pageSize, address) % pageSize == 0
    ensures PageOf(pageSize, address) <= address < PageOf(pageSize, address) + pageSize
  {
    DivMod(address, pageSize);
    DivUnique(address / pageSize * pageSize, pageSize, address / pageSize, 0);
  }

  /** Some byte of the range lies in the page. */
  predicate Touches(pageSize: nat, r: Range, page: nat)
    requires pageSize > 0
  {
    r.size > 0 && page % pageSize == 0 && page < r.base + r.size && r.base < page + pageSize
  }

  /** Pages are whole multiples of the page size apart. */
  lemma PagesApart(pageSize: nat, p: nat, q: nat)
    requires pageSize > 0 && p % pageSize == 0 && q % pageSize == 0 && p < q
    ensures p + pageSize <= q
  {
    DivMod(p, pageSize);
    DivMod(q, pageSize);
    if q / pageSize <= p / pageSize { MulMono(q / pageSize, p / pageSize, pageSize); }
    MulMono(p / pageSize + 1, q / pageSize, pageSize);
    MulDist(p / pageSize, 1, pageSize);
  }

  /** The pages a range touches are those from the page of its first byte to the page of its last. */
  lemma TouchesIff(pageSize: nat, r: Range, page: nat)
    requires pageSize > 0 && r.size > 0
    ensures Touches(pageSize, r, page) <==>
      page % pageSize == 0 && PageOf(pageSize, r.base) <= page <= PageOf(pageSize, r.base + r.size - 1)
  {
    hide PageOf;
    var first, last := PageOf(pageSize, r.base), PageOf(pageSize, r.base + r.size - 1);
    PageOfFacts(pageSize, r.base);
    PageOfFacts(pageSize, r.base + r.size - 1);
    if page % pageSize == 0 {
      if page < first { PagesApart(pageSize, page, first); }
      if last < page { PagesApart(pageSize, last, page); }
    }
  }

  lemma NextPage(pageSize: nat, page: nat)
    requires pageSize > 0 && page % pageSize == 0
    ensures (page + pageSize) % pageSize == 0
  {
    ModAdd(page, 1, pageSize);
  }

  /** How many of the ranges touch the page. */
  function Count(pageSize: nat, live: seq<Range>, page: nat): nat
    requires pageSize > 0
  {
    if live == [] then 0
    else Count(pageSize, live[..|live| - 1], page) + if Touches(pageSize, live[|live| - 1], page) then 1 else 0
  }

  lemma CountPush(pageSize: nat, live: seq<Range>, r: Range, page: nat)
    requires pageSize > 0
    ensures Count(pageSize, live + [r], page) ==
      Count(pageSize, live, page) + if Touches(pageSize, r, page) then 1 else 0
  {
    assert (live + [r])[..|live|] == live;
  }

  /** Ranges may be released in any order. */
  lemma {:induction false} CountRemove(pageSize: nat, live: seq<Range>, k: nat, page: nat)
    requires pageSize > 0 && k < |live|
    ensures Count(pageSize, live, page) ==
      Count(pageSize, live[..k] + live[k + 1..], page) + if Touches(pageSize, live[k], page) then 1 else 0
  {
    var last := |live| - 1;
    if k == last {
      assert live[..k] + live[k + 1..] == live[..last];
    } else {
      CountRemove(pageSize, live[..last], k, page);
      assert live[..k] + live[k + 1..] == (live[..last][..k] + live[..last][k + 1..]) + [live[last]];
      CountPush(pageSize, live[..last][..k] + live[..last][k + 1..], live[last], page);
    }
  }

  lemma {:induction false} CountPositive(pageSize: nat, live: seq<Range>, k: nat, page: nat)
    requires pageSize > 0 && k < |live| && Touches(pageSize, live[k], page)
    ensures Count(pageSize, live, page) > 0
  {
    CountRemove(pageSize, live, k, page);
  }

  lemma CountEmpty(pageSize: nat, page: nat)
    requires pageSize > 0
    ensures Count(pageSize, [], page) == 0
  {
  }

  /** Whether the range touches the page and the page lies in [lo, hi): the part of a range a loop has done or has left. */
  function Part(pageSize: nat, r: Range, lo: nat, hi: nat, page: nat): nat
    requires pageSize > 0
  {
    if Touches(pageSize, r, page) && lo <= page < hi then 1 else 0
  }

  lemma PartEmpty(pageSize: nat, r: Range, at: nat, p: nat)
    requires pageSize > 0
    ensures Part(pageSize, r, at, at, p) == 0 == Part(pageSize, Range(0, 0), 0, 0, p)
  {
  }

  predicate Inside(pageSize: nat, r: Range, page: nat)
    requires pageSize > 0
  {
    r.size > 0 && page % pageSize == 0
    && PageOf(pageSize, r.base) <= page <= PageOf(pageSize, r.base + r.size - 1)
  }

  lemma PartUpTo(pageSize: nat, r: Range, page: nat, p: nat)
    requires pageSize > 0 && Inside(pageSize, r, page)
    ensures var first := PageOf(pageSize, r.base);
      Part(pageSize, r, first, page + pageSize, p) == Part(pageSize, r, first, page, p) + if p == page then 1 else 0
  {
    hide PageOf, Touches;
    TouchesIff(pageSize, r, p);
    if p % pageSize == 0 && page < p { PagesApart(pageSize, page, p); }
  }

  lemma PartFrom(pageSize: nat, r: Range, page: nat, beyond: nat, p: nat)
    requires pageSize > 0 && Inside(pageSize, r, page) && page < beyond
    ensures Part(pageSize, r, page, beyond, p) ==
      Part(pageSize, r, page + pageSize, beyond, p) + if p == page then 1 else 0
  {
    hide PageOf, Touches;
    TouchesIff(pageSize, r, p);
    if p % pageSize == 0 && page < p { PagesApart(pageSize, page, p); }
  }

  lemma PartAll(pageSize: nat, r: Range, beyond: nat, p: nat)
    requires pageSize > 0 && r.size > 0 && beyond > PageOf(pageSize, r.base + r.size - 1)
    ensures Part(pageSize, r, PageOf(pageSize, r.base), beyond, p) == if Touches(pageSize, r, p) then 1 else 0
  {
    hide PageOf, Touches;
    TouchesIff(pageSize, r, p);
  }

  lemma PartNone(pageSize: nat, r: Range, page: nat, beyond: nat, p: nat)
    requires pageSize > 0 && r.size > 0 && page > PageOf(pageSize, r.base + r.size - 1)
    ensures Part(pageSize, r, page, beyond, p) == 0
  {
    hide PageOf, Touches;
    TouchesIff(pageSize, r, p);
  }

  lemma AddedRange(pageSize: nat, live: seq<Range>, r: Range, p: nat)
    requires pageSize > 0
    ensures Count(pageSize, live + [r], p) == Count(pageSize, live, p) + if Touches(pageSize, r, p) then 1 else 0
    ensures r.size == 0 ==> Count(pageSize, live + [r], p) == Count(pageSize, live, p)
  {
    CountPush(pageSize, live, r, p);
  }

  lemma RemovedRange(pageSize: nat, live: seq<Range>, k: nat, p: nat)
    requires pageSize > 0 && k < |live|
    ensures var rest := live[..k] + live[k + 1..];
      && Count(pageSize, live, p) == Count(pageSize, rest, p) + (if Touches(pageSize, live[k], p) then 1 else 0)
      && (live[k].size == 0 ==> Count(pageSize, live, p) == Count(pageSize, rest, p))
  {
    CountRemove(pageSize, live, k, p);
  }

  class LockedPageManager {
    const pageSize: nat
    var histogram: map<nat, nat>

    /** The pages the operating system was last asked to lock rather than unlock. */
    var locked: set<nat>

    /** The ranges locked and not yet unlocked. */
    ghost var live: seq<Range>

    ghost function Held(p: nat): nat
      reads this`histogram
    {
      if p in histogram then histogram[p] else 0
    }

    /** No zero counts are kept, and exactly the counted pages are locked. */
    ghost predicate Tidy()
      reads this`histogram, this`locked
    {
      (forall p: nat :: p in histogram ==> histogram[p] > 0) && locked == histogram.Keys
    }

    /** The count of every page is the number of the given ranges, and of pages of `r` between `lo` and `hi`, at it. */
    ghost predicate Counts(ranges: seq<Range>, r: Range, lo: nat, hi: nat)
      requires pageSize > 0
      reads this`histogram, this`locked
    {
      Tidy() && forall p: nat :: Held(p) == Count(pageSize, ranges, p) + Part(pageSize, r, lo, hi, p)
    }

    ghost predicate Valid()
      reads this
    {
      pageSize > 0 && Counts(live, Range(0, 0), 0, 0)
    }

    constructor (pageSize: nat, ghost e: nat)
      requires pageSize == Pow(2, e)
      ensures Valid() && this.pageSize == pageSize && live == []
    {
      this.pageSize, histogram, locked, live := pageSize, map[], {}, [];
      PowPos(2, e);
      new;
      forall p: nat ensures Count(pageSize, [], p) == 0 { CountEmpty(pageSize, p); }
    }

    /** The policy class's Lock: never asked for a page that is already locked. */
    method OsLock(page: nat)
      requires page !in locked
      modifies this`locked
      ensures locked == old(locked) + {page}
    {
      locked := locked + {page};
    }

    /** The policy class's Unlock: never asked for a page that is not locked. */
    method OsUnlock(page: nat)
      requires page in locked
      modifies this`locked
      ensures locked == old(locked) - {page}
    {
      locked := locked - {page};
    }

    /** The loop bodies: one page more, one page less. */
    method LockPage(page: nat)
      requires Tidy()
      modifies this`histogram, this`locked
      ensures Tidy() && forall p: nat :: Held(p) == old(Held(p)) + if p == page then 1 else 0
    {
      if page !in histogram {
        OsLock(page);
        histogram := histogram[page := 1];
      } else {
        histogram := histogram[page := histogram[page] + 1];
      }
    }

    method UnlockPage(page: nat)
      requires Tidy() && Held(page) > 0
      modifies this`histogram, this`locked
      ensures Tidy() && forall p: nat :: Held(p) == old(Held(p)) - if p == page then 1 else 0
    {
      // The assertion of the source: the page is counted.
      assert page in histogram;
      var count: nat := histogram[page] - 1;
      if count == 0 {
        OsUnlock(page);
        histogram := histogram - {page};
      } else {
        histogram := histogram[page := count];
      }
    }

    /** Locks every page the range touches. The range ends before the last page of the address space. */
    method LockRange(r: Range)
      requires Valid() && r.base + r.size + pageSize <= 0x1_0000_0000_0000_0000
      modifies this
      ensures Valid() && live == old(live) + [r]
    {
      hide PageOf, Touches, Part, Count;
      ghost var before := live;
      live := live + [r];
      if r.size == 0 {
        forall p: nat ensures Count(pageSize, live, p) == Count(pageSize, before, p) {
          AddedRange(pageSize, before, r, p);
        }
        return;
      }
      var page := PageOf(pageSize, r.base);
      var endPage := PageOf(pageSize, r.base + r.size - 1);
      PageOfFacts(pageSize, r.base);
      PageOfFacts(pageSize, r.base + r.size - 1);
      ghost var first := page;
      forall p: nat ensures Part(pageSize, r, first, first, p) == 0 == Part(pageSize, Range(0, 0), 0, 0, p) {
        PartEmpty(pageSize, r, first, p);
      }
      while page <= endPage
        invariant page % pageSize == 0 && first <= page <= endPage + pageSize && live == before + [r]
        invariant Counts(before, r, first, page)
      {
        LockPage(page);
        forall p: nat
          ensures Part(pageSize, r, first, page + pageSize, p) == Part(pageSize, r, first, page, p) + if p == page then 1 else 0
        {
          PartUpTo(pageSize, r, page, p);
        }
        NextPage(pageSize, page);
        page := page + pageSize;
      }
      forall p: nat
        ensures Count(pageSize, live, p) == Count(pageSize, before, p) + Part(pageSize, r, first, page, p)
      {
        AddedRange(pageSize, before, r, p);
        PartAll(pageSize, r, page, p);
      }
    }

    /** Releases a live range; the assertion that its pages are counted never fails. */
    method UnlockRange(r: Range, ghost k: nat)
      requires Valid() && k < |live| && live[k] == r
      requires r.base + r.size + pageSize <= 0x1_0000_0000_0000_0000
      modifies this
      ensures Valid() && live == old(live)[..k] + old(live)[k + 1..]
    {
      hide PageOf, Touches, Part, Count;
      ghost var before := live;
      live := live[..k] + live[k + 1..];
      if r.size == 0 {
        forall p: nat ensures Count(pageSize, live, p) == Count(pageSize, before, p) {
          RemovedRange(pageSize, before, k, p);
        }
        return;
      }
      var page := PageOf(pageSize, r.base);
      var endPage := PageOf(pageSize, r.base + r.size - 1);
      PageOfFacts(pageSize, r.base);
      PageOfFacts(pageSize, r.base + r.size - 1);
      ghost var first := page;
      ghost var beyond := endPage + pageSize;
      forall p: nat
        ensures Count(pageSize, before, p) == Count(pageSize, live, p) + Part(pageSize, r, first, beyond, p)
        ensures Part(pageSize, Range(0, 0), 0, 0, p) == 0
      {
        RemovedRange(pageSize, before, k, p);
        PartAll(pageSize, r, beyond, p);
        PartEmpty(pageSize, r, first, p);
      }
      while page <= endPage
        invariant page % pageSize == 0 && first <= page <= beyond && live == before[..k] + before[k + 1..]
        invariant Counts(live, r, page, beyond)
      {
        forall p: nat
          ensures Part(pageSize, r, page, beyond, p) == Part(pageSize, r, page + pageSize, beyond, p) + if p == page then 1 else 0
        {
          PartFrom(pageSize, r, page, beyond, p);
        }
        UnlockPage(page);
        NextPage(pageSize, page);
        page := page + pageSize;
      }
      forall p: nat ensures Part(pageSize, r, page, beyond, p) == 0 { PartNone(pageSize, r, page, beyond, p); }
    }

    method GetLockedPageCount() returns (n: nat)
      requires Valid()
      ensures n == |locked|
    {
      assert |histogram| == |histogram.Keys|;
      n := |histogram|;
    }

    /** A byte is in a locked page exactly while a live range touches its page. */
    lemma LockedIff(page: nat)
      requires Valid()
      ensures page in locked <==> exists k :: 0 <= k < |live| && Touches(pageSize, live[k], page)
    {
      assert page in locked <==> Held(page) > 0;
      if page in locked {
        Witness(pageSize, live, page);
      } else if k :| 0 <= k < |live| && Touches(pageSize, live[k], page) {
        CountPositive(pageSize, live, k, page);
      }
    }

    /** The destructor's assertion holds exactly when every range that is not empty was released. */
    lemma DestructorIff()
      requires Valid()
      ensures locked == {} <==> forall k :: 0 <= k < |live| ==> live[k].size == 0
    {
      if locked == {} {
        forall k | 0 <= k < |live| ensures live[k].size == 0 {
          var page := PageOf(pageSize, live[k].base);
          PageOfFacts(pageSize, live[k].base);
          LockedIff(page);
        }
      } else {
        var page: nat :| page in locked;
        LockedIff(page);
      }
    }
  }

  lemma {:induction false} Witness(pageSize: nat, live: seq<Range>, page: nat)
    requires pageSize > 0 && Count(pageSize, live, page) > 0
    ensures exists k :: 0 <= k < |live| && Touches(pageSize, live[k], page)
  {
    var last := |live| - 1;
    if !Touches(pageSize, live[last], page) {
      Witness(pageSize, live[..last], page);
      var k :| 0 <= k < last && Touches(pageSize, live[..last][k], page);
      assert Touches(pageSize, live[k], page);
    }
  }
}
