/** LockedPageManagerBase: a count for every memory page of the ranges that lock it, so
    that locks stack although the system's do not. */
module LockedPages {
  import opened Numerals

  /** A call of the system's locker on a page. */
  datatype Call = Lock(page: nat) | Unlock(page: nat)

  datatype Range = Range(base: nat, size: nat)

  // ----- the mask -----

  /** Bitwise and. */
  function And(x: nat, y: nat): nat {
    if x == 0 || y == 0 then 0
    else 2 * And(x / 2, y / 2) + (if x % 2 == 1 && y % 2 == 1 then 1 else 0)
  }

  lemma AndStep(x: nat, y: nat)
    ensures And(x, y) == 2 * And(x / 2, y / 2) + (if x % 2 == 1 && y % 2 == 1 then 1 else 0)
  {
    assert x / 2 == 0 || y / 2 == 0 ==> And(x / 2, y / 2) == 0;
  }

  /** The number of the page that an address is on. */
  function PageNumber(addr: nat, pageSize: nat): nat
    requires pageSize > 0
  {
    addr / pageSize
  }

  /** Masking a word with the complement of a power of two less one rounds it down to a
      multiple of the power. */
  lemma {:induction false} MaskRoundsDown(x: nat, w: nat, s: nat)
    requires x < Pow(2, w) && s <= w
    ensures Pow(2, s) <= Pow(2, w) && And(x, Pow(2, w) - Pow(2, s)) == Times(Pow(2, s), PageNumber(x, Pow(2, s)))
  {
    hide Times, And, Pow, PageNumber;
    PowMonotone(2, s, w);
    if s == 0 {
      MaskOfAll(x, w);
      One(x);
    } else {
      Twice(w);
      Twice(s);
      AndStep(x, Pow(2, w) - Pow(2, s));
      MaskRoundsDown(x / 2, w - 1, s - 1);
      HalfQuotient(x, Pow(2, s - 1));
    }
  }

  lemma {:induction false} MaskOfAll(x: nat, w: nat)
    requires x < Pow(2, w)
    ensures Pow(2, w) >= 1 && And(x, Pow(2, w) - 1) == x
  {
    hide And, Pow;
    One(x);
    NothingMasked();
    if w > 0 {
      Twice(w);
      MaskOfAll(x / 2, w - 1);
      AndStep(x, Pow(2, w) - 1);
    }
  }

  lemma NothingMasked()
    ensures And(0, 0) == 0
  {
  }

  lemma Twice(s: nat)
    requires s > 0
    ensures Pow(2, s) == 2 * Pow(2, s - 1)
  {
  }

  lemma One(x: nat)
    ensures Pow(2, 0) == 1 && PageNumber(x, Pow(2, 0)) == x && Times(Pow(2, 0), x) == x
  {
  }

  lemma HalfQuotient(x: nat, p: nat)
    requires p > 0
    ensures Times(2 * p, PageNumber(x, 2 * p)) == 2 * Times(p, PageNumber(x / 2, p))
  {
    hide Times;
    DivMod(x / 2, p);
    var q, r := x / 2 / p, x / 2 % p;
    Doubling(p, q);
    DivModUnique(x, 2 * p, q, 2 * r + x % 2);
  }

  lemma Doubling(p: nat, q: nat)
    ensures Times(2 * p, q) == 2 * Times(p, q)
  {
  }

  // ----- the pages of a range -----

  /** The page addresses from one to another, as the loops visit them. */
  function PagesFrom(page: nat, end: nat, size: nat): seq<nat>
    requires size > 0
    decreases end - page
  {
    if page > end then [] else [page] + PagesFrom(page + size, end, size)
  }

  lemma {:induction false} PagesAscend(page: nat, end: nat, size: nat)
    requires size > 0
    ensures forall q :: q in PagesFrom(page, end, size) ==> page <= q <= end
    decreases end - page
  {
    if page <= end {
      PagesAscend(page + size, end, size);
      assert forall q :: q in PagesFrom(page, end, size) ==> q == page || q in PagesFrom(page + size, end, size);
    }
  }

  /** The multiples of the page size between two of them are the pages visited. */
  lemma {:induction false} PagesAre(first: nat, last: nat, size: nat, k: nat)
    requires size > 0
    ensures Times(size, k) in PagesFrom(Times(size, first), Times(size, last), size) <==> first <= k <= last
    decreases last - first
  {
    hide Times;
    TimesMonotone(size, first, last + (if first > last then first else 0));
    if first <= last {
      TimesMonotone(size, first, last);
      Successor(size, first);
      PagesAre(first + 1, last, size, k);
      if k == first {} else { Distinct(size, k, first); }
    } else {
      Distinct(size, last, first);
      if last < first { TimesMonotone(size, last + 1, first); Successor(size, last); }
    }
  }

  lemma Successor(size: nat, k: nat)
    ensures Times(size, k + 1) == Times(size, k) + size
  {
  }

  lemma Distinct(size: nat, a: nat, b: nat)
    requires size > 0 && a != b
    ensures Times(size, a) != Times(size, b)
  {
    hide Times;
    if a < b { TimesMonotone(size, a + 1, b); Successor(size, a); } else { TimesMonotone(size, b + 1, a); Successor(size, b); }
  }

  /** The pages of a range. */
  function PagesOf(range: Range, pageSize: nat): seq<nat>
    requires pageSize > 0
  {
    if range.size == 0 then []
    else
      PagesFrom(Times(pageSize, PageNumber(range.base, pageSize)),
                Times(pageSize, PageNumber(range.base + range.size - 1, pageSize)), pageSize)
  }

  /** A range's pages are those of its bytes. */
  lemma PagesOfBytes(range: Range, pageSize: nat, k: nat)
    requires pageSize > 0
    ensures Times(pageSize, k) in PagesOf(range, pageSize)
      <==> exists a: nat :: range.base <= a < range.base + range.size && PageNumber(a, pageSize) == k
  {
    hide Times, PageNumber, PagesFrom;
    if range.size > 0 {
      var last := range.base + range.size - 1;
      var from, to := PageNumber(range.base, pageSize), PageNumber(last, pageSize);
      PagesAre(from, to, pageSize, k);
      if from <= k <= to {
        var a := if k == from then range.base else Times(pageSize, k);
        PageStart(pageSize, k, range.base, last);
        assert range.base <= a < range.base + range.size && PageNumber(a, pageSize) == k;
      }
      forall a: nat | range.base <= a < range.base + range.size ensures from <= PageNumber(a, pageSize) <= to {
        QuotientMonotone(range.base, a, pageSize);
        QuotientMonotone(a, last, pageSize);
      }
    }
  }

  lemma QuotientMonotone(a: nat, b: nat, size: nat)
    requires size > 0 && a <= b
    ensures PageNumber(a, size) <= PageNumber(b, size)
  {
    hide Times;
    DivMod(a, size);
    DivMod(b, size);
    if a / size > b / size {
      TimesMonotone(size, b / size + 1, a / size);
      Successor(size, b / size);
    }
  }

  lemma PageStart(size: nat, k: nat, first: nat, last: nat)
    requires size > 0 && PageNumber(first, size) <= k <= PageNumber(last, size)
    ensures PageNumber(Times(size, k), size) == k && Times(size, k) <= last
    ensures k != PageNumber(first, size) ==> first <= Times(size, k)
  {
    hide Times;
    TimesLaws(size, 0, 0);
    DivModUnique(Times(size, k), size, k, 0);
    DivMod(last, size);
    DivMod(first, size);
    TimesMonotone(size, k, last / size);
    if k != first / size {
      TimesMonotone(size, first / size + 1, k);
      Successor(size, first / size);
    }
  }

  // ----- how many live ranges cover a page -----

  function Cover(live: seq<Range>, page: nat, pageSize: nat): nat
    requires pageSize > 0
  {
    if live == [] then 0
    else (if page in PagesOf(live[0], pageSize) then 1 else 0) + Cover(live[1..], page, pageSize)
  }

  lemma {:induction false} CoverAround(a: seq<Range>, range: Range, b: seq<Range>, page: nat, pageSize: nat)
    requires pageSize > 0
    ensures Cover(a + [range] + b, page, pageSize)
      == Cover(a + b, page, pageSize) + (if page in PagesOf(range, pageSize) then 1 else 0)
  {
    if a == [] {
      assert a + [range] + b == [range] + b && a + b == b && ([range] + b)[1..] == b;
    } else {
      CoverAround(a[1..], range, b, page, pageSize);
      assert (a + [range] + b)[1..] == a[1..] + [range] + b && (a + b)[1..] == a[1..] + b;
    }
  }

  // ----- the locker -----

  function AfterCall(locked: set<nat>, call: Call): set<nat> {
    if call.Lock? then locked + {call.page} else locked - {call.page}
  }

  /** The pages that are locked after the calls: a lock or unlock counts once. */
  function Locked(calls: seq<Call>): set<nat> {
    if calls == [] then {}
    else
      var m := |calls| - 1;
      AfterCall(Locked(calls[..m]), calls[m])
  }

  /** Only unlocked pages are locked, and only locked ones unlocked. */
  predicate Alternates(calls: seq<Call>) {
    calls == [] ||
    var m := |calls| - 1;
    Alternates(calls[..m]) && (calls[m].Lock? <==> calls[m].page !in Locked(calls[..m]))
  }

  lemma OneMoreCall(calls: seq<Call>, call: Call)
    ensures Locked(calls + [call]) == AfterCall(Locked(calls), call)
    ensures Alternates(calls + [call]) <==> Alternates(calls) && (call.Lock? <==> call.page !in Locked(calls))
  {
    assert (calls + [call])[..|calls|] == calls;
  }

  function Count(histogram: map<nat, nat>, page: nat): nat {
    if page in histogram then histogram[page] else 0
  }

  /** The calls for those of the pages that are not counted yet, or counted once. */
  function Changes(histogram: map<nat, nat>, pages: seq<nat>, lock: bool): seq<Call> {
    if pages == [] then []
    else
      var m := |pages| - 1;
      Changes(histogram, pages[..m], lock) + ChangeOf(histogram, pages[m], lock)
  }

  function ChangeOf(histogram: map<nat, nat>, page: nat, lock: bool): seq<Call> {
    if lock then (if Count(histogram, page) == 0 then [Lock(page)] else [])
    else (if Count(histogram, page) == 1 then [Unlock(page)] else [])
  }

  /** The histogram after one page's count went up or down. */
  function Counted(histogram: map<nat, nat>, page: nat, lock: bool): map<nat, nat>
    requires lock || Count(histogram, page) > 0
  {
    if lock then histogram[page := Count(histogram, page) + 1]
    else if histogram[page] == 1 then histogram - {page}
    else histogram[page := histogram[page] - 1]
  }

  /** Between two states of a manager: the counts of the pages done went up or down by
      one, and the locker was called for those that changed between none and one. */
  ghost predicate Changed(h0: map<nat, nat>, c0: seq<Call>, done: seq<nat>, lock: bool, h: map<nat, nat>, c: seq<Call>) {
    (forall q :: Count(h0, q) + (if lock && q in done then 1 else 0) == Count(h, q) + (if !lock && q in done then 1 else 0)) &&
    (forall q :: q in h ==> h[q] > 0) &&
    c == c0 + Changes(h0, done, lock) && Locked(c) == h.Keys && Alternates(c)
  }

  lemma ChangedNone(h: map<nat, nat>, c: seq<Call>, lock: bool)
    requires (forall q :: q in h ==> h[q] > 0) && Locked(c) == h.Keys && Alternates(c)
    ensures Changed(h, c, [], lock, h, c)
  {
  }

  lemma ChangedMore(h0: map<nat, nat>, c0: seq<Call>, done: seq<nat>, lock: bool, h: map<nat, nat>, c: seq<Call>, page: nat)
    requires Changed(h0, c0, done, lock, h, c) && page !in done && (lock || Count(h0, page) > 0)
    ensures Changed(h0, c0, done + [page], lock, Counted(h, page, lock), c + ChangeOf(h, page, lock))
  {
    hide Changes, Locked, Alternates;
    assert Count(h, page) == Count(h0, page);
    var done' := done + [page];
    var h', change := Counted(h, page, lock), ChangeOf(h, page, lock);
    assert forall q :: q in done' <==> q in done || q == page;
    CountedPointwise(h, page, lock);
    ChangesMore(h0, done, page, lock);
    assert c0 + (Changes(h0, done, lock) + change) == c + change;
    if change != [] {
      OneMoreCall(c, change[0]);
      assert h'.Keys == AfterCall(h.Keys, change[0]);
    } else {
      assert c + change == c && h'.Keys == h.Keys;
    }
  }

  lemma CountedPointwise(h: map<nat, nat>, page: nat, lock: bool)
    requires (lock || Count(h, page) > 0) && forall q :: q in h ==> h[q] > 0
    ensures var h' := Counted(h, page, lock);
      (forall q :: q != page ==> Count(h', q) == Count(h, q)) &&
      Count(h, page) + (if lock then 1 else 0) == Count(h', page) + (if lock then 0 else 1) &&
      forall q :: q in h' ==> h'[q] > 0
  {
  }

  lemma ChangesMore(h: map<nat, nat>, done: seq<nat>, page: nat, lock: bool)
    ensures Changes(h, done + [page], lock) == Changes(h, done, lock) + ChangeOf(h, page, lock)
  {
    assert (done + [page])[..|done|] == done;
  }

  /** The loops' updates are those counted. */
  lemma UpdatesCount(h: map<nat, nat>, c: seq<Call>, page: nat)
    requires forall q :: q in h ==> h[q] > 0
    ensures page !in h ==> h[page := 1] == Counted(h, page, true) && c + [Lock(page)] == c + ChangeOf(h, page, true)
    ensures page in h ==> h[page := h[page] + 1] == Counted(h, page, true) && c == c + ChangeOf(h, page, true)
    ensures page in h && h[page] == 1 ==>
      h[page := 0] - {page} == Counted(h, page, false) && c + [Unlock(page)] == c + ChangeOf(h, page, false)
    ensures page in h && h[page] != 1 ==>
      h[page := h[page] - 1] == Counted(h, page, false) && c == c + ChangeOf(h, page, false)
  {
  }

  class LockedPageManager {
    const pageSize: nat
    const wordBits: nat
    var histogram: map<nat, nat>
    /** The calls made on the locker. */
    var calls: seq<Call>
    /** The ranges locked and not unlocked. */
    ghost var live: seq<Range>

    ghost predicate Valid()
      reads this
    {
      IsPowerOfTwo(pageSize, wordBits) &&
      (forall page :: Count(histogram, page) == Cover(live, page, pageSize)) &&
      (forall page :: page in histogram ==> histogram[page] > 0) &&
      Locked(calls) == histogram.Keys && Alternates(calls)
    }

    constructor (pageSize: nat, wordBits: nat)
      requires IsPowerOfTwo(pageSize, wordBits)
      ensures Valid() && this.pageSize == pageSize && this.wordBits == wordBits
      ensures histogram == map[] && calls == [] && live == []
    {
      this.pageSize := pageSize;
      this.wordBits := wordBits;
      histogram := map[];
      calls := [];
      live := [];
    }

    /** The page of an address: the address and page_mask. */
    function PageOf(addr: nat): (page: nat)
      requires IsPowerOfTwo(pageSize, wordBits) && addr < Pow(2, wordBits)
      ensures page == Times(pageSize, PageNumber(addr, pageSize))
    {
      MaskIsPage(addr, pageSize, wordBits);
      And(addr, Pow(2, wordBits) - pageSize)
    }

    /** The range does not reach the last page of the address space. */
    predicate FitsBelowLastPage(base: nat, size: nat) {
      base + size + pageSize <= Pow(2, wordBits)
    }

    method LockRange(base: nat, size: nat)
      requires Valid() && FitsBelowLastPage(base, size)
      modifies this
      ensures Valid() && live == old(live) + [Range(base, size)]
      ensures calls == old(calls) + Changes(old(histogram), PagesOf(Range(base, size), pageSize), true)
    {
      hide Times, Pow, Locked, Alternates, And, Changed, Count, Changes, Cover, PagesFrom, PageNumber, Counted, ChangeOf;
      ghost var range, h0, c0 := Range(base, size), histogram, calls;
      ghost var all := PagesOf(range, pageSize);
      AddRange(live, range, pageSize);
      live := live + [range];
      ChangedNone(h0, c0, true);
      if size == 0 { ChangesNone(h0); return; }
      ghost var done: seq<nat> := [];
      var page, endPage := PageOf(base), PageOf(base + size - 1);
      ghost var start := page;
      while page <= endPage
        invariant all == done + PagesFrom(page, endPage, pageSize)
        invariant forall q :: q in done ==> q < page
        invariant Changed(h0, c0, done, true, histogram, calls) && live == old(live) + [range]
        decreases endPage + pageSize - page
      {
        PagesStep(done, page, endPage, pageSize);
        LockedMore(h0, c0, done, histogram, calls, page);
        if page !in histogram {
          calls := calls + [Lock(page)];
          histogram := histogram[page := 1];
        } else {
          histogram := histogram[page := histogram[page] + 1];
        }
        done := done + [page];
        page := page + pageSize;
      }
      PagesStep(done, page, endPage, pageSize);
      ChangedCounts(h0, c0, done, true, histogram, calls);
    }

    /** Unlocking a live range. Of several equal ones it does not matter which. */
    method UnlockRange(base: nat, size: nat, ghost at: nat)
      requires Valid() && FitsBelowLastPage(base, size) && at < |live| && live[at] == Range(base, size)
      modifies this
      ensures Valid() && live == old(live)[..at] + old(live)[at + 1..]
      ensures calls == old(calls) + Changes(old(histogram), PagesOf(Range(base, size), pageSize), false)
    {
      hide Times, Pow, Locked, Alternates, And, Changed, Count, Changes, Cover, PagesFrom, PageNumber, Counted, ChangeOf;
      ghost var range, h0, c0 := Range(base, size), histogram, calls;
      ghost var all := PagesOf(range, pageSize);
      RemoveRange(live, at, pageSize);
      live := live[..at] + live[at + 1..];
      ChangedNone(h0, c0, false);
      if size == 0 { ChangesNone(h0); return; }
      assert forall q :: q in all ==> Count(h0, q) > 0;
      ghost var done: seq<nat> := [];
      var page, endPage := PageOf(base), PageOf(base + size - 1);
      while page <= endPage
        invariant all == done + PagesFrom(page, endPage, pageSize)
        invariant forall q :: q in done ==> q < page
        invariant Changed(h0, c0, done, false, histogram, calls) && live == old(live)[..at] + old(live)[at + 1..]
        decreases endPage + pageSize - page
      {
        PagesStep(done, page, endPage, pageSize);
        UnlockedMore(h0, c0, done, histogram, calls, page);
        histogram := histogram[page := histogram[page] - 1];
        if histogram[page] == 0 {
          calls := calls + [Unlock(page)];
          histogram := histogram - {page};
        }
        done := done + [page];
        page := page + pageSize;
      }
      PagesStep(done, page, endPage, pageSize);
      ChangedCounts(h0, c0, done, false, histogram, calls);
    }

    method GetLockedPageCount() returns (n: nat)
      requires Valid()
      ensures n == |histogram| && forall page :: page in histogram <==> Cover(live, page, pageSize) > 0
    {
      n := |histogram|;
      assert forall page :: page in histogram <==> Count(histogram, page) > 0;
    }
  }

  /** A round of the locking loop. */
  lemma LockedMore(h0: map<nat, nat>, c0: seq<Call>, done: seq<nat>, h: map<nat, nat>, c: seq<Call>, page: nat)
    requires Changed(h0, c0, done, true, h, c) && page !in done
    ensures page !in h ==> Changed(h0, c0, done + [page], true, h[page := 1], c + [Lock(page)])
    ensures page in h ==> Changed(h0, c0, done + [page], true, h[page := h[page] + 1], c)
  {
    ChangedMore(h0, c0, done, true, h, c, page);
    ChangedCounts(h0, c0, done, true, h, c);
    UpdatesCount(h, c, page);
    hide Changed, Counted, ChangeOf, Count;
  }

  /** A round of the unlocking loop. */
  lemma UnlockedMore(h0: map<nat, nat>, c0: seq<Call>, done: seq<nat>, h: map<nat, nat>, c: seq<Call>, page: nat)
    requires Changed(h0, c0, done, false, h, c) && page !in done && Count(h0, page) > 0
    ensures page in h && h[page] > 0
    ensures h[page] == 1 ==> Changed(h0, c0, done + [page], false, h[page := 0] - {page}, c + [Unlock(page)])
    ensures h[page] != 1 ==> Changed(h0, c0, done + [page], false, h[page := h[page] - 1], c)
  {
    ChangedMore(h0, c0, done, false, h, c, page);
    ChangedCounts(h0, c0, done, false, h, c);
    UpdatesCount(h, c, page);
    hide Changed, Counted, ChangeOf, Changes;
  }

  lemma ChangesNone(h: map<nat, nat>)
    ensures forall lock :: Changes(h, [], lock) == []
  {
  }

  lemma ChangedCounts(h0: map<nat, nat>, c0: seq<Call>, done: seq<nat>, lock: bool, h: map<nat, nat>, c: seq<Call>)
    requires Changed(h0, c0, done, lock, h, c)
    ensures forall q :: Count(h0, q) + (if lock && q in done then 1 else 0) == Count(h, q) + (if !lock && q in done then 1 else 0)
    ensures (forall q :: q in h ==> h[q] > 0) && c == c0 + Changes(h0, done, lock) && Locked(c) == h.Keys && Alternates(c)
  {
  }

  lemma PagesStep(done: seq<nat>, page: nat, end: nat, size: nat)
    requires size > 0 && forall q :: q in done ==> q < page
    ensures page > end ==> done + PagesFrom(page, end, size) == done
    ensures page <= end ==>
      done + PagesFrom(page, end, size) == done + [page] + PagesFrom(page + size, end, size) &&
      page in done + PagesFrom(page, end, size)
    ensures page !in done && forall q :: q in done + [page] ==> q < page + size
  {
    PagesUnfold(page, end, size);
    hide PagesFrom;
    if page <= end {
      var rest := PagesFrom(page + size, end, size);
      assert done + ([page] + rest) == done + [page] + rest;
    }
  }

  lemma PagesUnfold(page: nat, end: nat, size: nat)
    requires size > 0
    ensures PagesFrom(page, end, size) == if page > end then [] else [page] + PagesFrom(page + size, end, size)
  {
  }

  lemma AddRange(live: seq<Range>, range: Range, pageSize: nat)
    requires pageSize > 0
    ensures forall page ::
      Cover(live + [range], page, pageSize)
      == Cover(live, page, pageSize) + (if page in PagesOf(range, pageSize) then 1 else 0)
  {
    hide PagesOf;
    forall page ensures Cover(live + [range], page, pageSize)
      == Cover(live, page, pageSize) + (if page in PagesOf(range, pageSize) then 1 else 0)
    {
      CoverAround(live, range, [], page, pageSize);
      assert live + [range] + [] == live + [range] && live + [] == live;
    }
  }

  lemma RemoveRange(live: seq<Range>, at: nat, pageSize: nat)
    requires pageSize > 0 && at < |live|
    ensures forall page ::
      Cover(live, page, pageSize)
      == Cover(live[..at] + live[at + 1..], page, pageSize) + (if page in PagesOf(live[at], pageSize) then 1 else 0)
  {
    hide PagesOf;
    forall page ensures Cover(live, page, pageSize)
      == Cover(live[..at] + live[at + 1..], page, pageSize) + (if page in PagesOf(live[at], pageSize) then 1 else 0)
    {
      CoverAround(live[..at], live[at], live[at + 1..], page, pageSize);
      assert live[..at] + [live[at]] + live[at + 1..] == live;
    }
  }

  /** The step from one page to the next, in the width of an address. */
  function NextPage(page: nat, pageSize: nat, wordBits: nat): nat {
    (page + pageSize) % Pow(2, wordBits)
  }

  /** The page that a loop is at after `i` rounds, in the width of an address. */
  function Visited(page: nat, i: nat, pageSize: nat, wordBits: nat): nat {
    if i == 0 then page else NextPage(Visited(page, i - 1, pageSize, wordBits), pageSize, wordBits)
  }

  /** The loop over a range's pages, in the width of an address and from the first of
      them, comes to a page past the last one exactly when the last one is not that of
      the address space: else it never ends. */
  lemma LoopEnds(first: nat, last: nat, pageSize: nat, wordBits: nat)
    requires 0 < pageSize && first <= last && Times(pageSize, last + 1) <= Pow(2, wordBits)
    ensures (exists i: nat :: Visited(Times(pageSize, first), i, pageSize, wordBits) > Times(pageSize, last))
      <==> Times(pageSize, last + 1) < Pow(2, wordBits)
  {
    hide Pow, Times, NextPage, Visited;
    if Times(pageSize, last + 1) < Pow(2, wordBits) {
      VisitsInOrder(first, last, last + 1 - first, pageSize, wordBits);
      Successor(pageSize, last);
      assert Visited(Times(pageSize, first), last + 1 - first, pageSize, wordBits) > Times(pageSize, last);
    } else {
      forall i: nat ensures Visited(Times(pageSize, first), i, pageSize, wordBits) <= Times(pageSize, last) {
        var k := VisitsGoRound(first, last, i, pageSize, wordBits);
        TimesMonotone(pageSize, k, last);
      }
    }
  }

  lemma OneVisit(page: nat, i: nat, pageSize: nat, wordBits: nat)
    ensures Visited(page, 0, pageSize, wordBits) == page
    ensures Visited(page, i + 1, pageSize, wordBits) == NextPage(Visited(page, i, pageSize, wordBits), pageSize, wordBits)
  {
  }

  lemma {:induction false} VisitsInOrder(first: nat, last: nat, i: nat, pageSize: nat, wordBits: nat)
    requires 0 < pageSize && Times(pageSize, last + 1) < Pow(2, wordBits) && first + i <= last + 1
    ensures Visited(Times(pageSize, first), i, pageSize, wordBits) == Times(pageSize, first + i)
    decreases i
  {
    hide Pow, Times, NextPage, Visited;
    OneVisit(Times(pageSize, first), if i > 0 then i - 1 else 0, pageSize, wordBits);
    if i > 0 {
      VisitsInOrder(first, last, i - 1, pageSize, wordBits);
      TimesMonotone(pageSize, first + i, last + 1);
      Successor(pageSize, first + i - 1);
      NextPageIs(Times(pageSize, first + i - 1), pageSize, wordBits);
    }
  }

  /** When the range ends with the address space, every page visited is one up to its
      last: after that the loop is at 0. */
  lemma {:induction false} VisitsGoRound(first: nat, last: nat, i: nat, pageSize: nat, wordBits: nat) returns (k: nat)
    requires 0 < pageSize && Times(pageSize, last + 1) == Pow(2, wordBits) && first <= last
    ensures k <= last && Visited(Times(pageSize, first), i, pageSize, wordBits) == Times(pageSize, k)
    decreases i
  {
    hide Pow, Times, NextPage, Visited;
    OneVisit(Times(pageSize, first), if i > 0 then i - 1 else 0, pageSize, wordBits);
    if i == 0 {
      k := first;
    } else {
      var j := VisitsGoRound(first, last, i - 1, pageSize, wordBits);
      TimesMonotone(pageSize, j + 1, last + 1);
      Successor(pageSize, j);
      NextPageIs(Times(pageSize, j), pageSize, wordBits);
      if j == last {
        TimesLaws(pageSize, 0, 0);
        k := 0;
      } else {
        Distinct(pageSize, j + 1, last + 1);
        k := j + 1;
      }
    }
  }

  lemma NextPageIs(page: nat, pageSize: nat, wordBits: nat)
    requires 0 < pageSize && page + pageSize <= Pow(2, wordBits)
    ensures NextPage(page, pageSize, wordBits) == if page + pageSize < Pow(2, wordBits) then page + pageSize else 0
  {
    hide Pow;
    SmallOrWhole(page + pageSize, Pow(2, wordBits));
  }

  lemma SmallOrWhole(n: nat, word: nat)
    requires 0 < n <= word
    ensures n % word == if n < word then n else 0
  {
  }

  lemma MaskIsPage(addr: nat, pageSize: nat, wordBits: nat)
    requires IsPowerOfTwo(pageSize, wordBits) && addr < Pow(2, wordBits)
    ensures pageSize <= Pow(2, wordBits)
    ensures And(addr, Pow(2, wordBits) - pageSize) == Times(pageSize, PageNumber(addr, pageSize))
  {
    var s :| 0 <= s <= wordBits && pageSize == Pow(2, s);
    MaskRoundsDown(addr, wordBits, s);
  }

  predicate IsPowerOfTwo(n: nat, wordBits: nat) {
    n > 0 && exists s :: 0 <= s <= wordBits && n == Pow(2, s)
  }
}
