/** The physical page allocator: a next-fit scan over a bitmap in two passes, with counters that
    agree with the bits. */
module PhysicalAllocator {
  import opened Bitset

  const PAGE_SIZE: nat := 0x1000

  // ---- the bitmap --------------------------------------------------------------------------

  class Bitmap {
    const buffer: array<bv8>
    const size: nat

    ghost predicate Valid()
    {
      size <= 8 * buffer.Length
    }

    ghost function View(): (v: seq<bool>)
      reads buffer
      ensures |v| == 8 * buffer.Length
    {
      BitsOf(buffer[..])
    }

    constructor (bytes: array<bv8>, entries: nat)
      requires entries <= 8 * bytes.Length
      ensures Valid() && buffer == bytes && size == entries
    {
      buffer, size := bytes, entries;
    }

    method Bit(index: nat) returns (used: bool)
      requires Valid() && index < size
      ensures used == View()[index]
    {
      used := TestBit(buffer, index);
    }

    method Set(index: nat, used: bool)
      requires Valid() && index < size
      modifies buffer
      ensures View() == old(View())[index := used]
    {
      if used {
        SetBit(buffer, index);
      } else {
        ClearBit(buffer, index);
      }
    }
  }

  // ---- runs and counts ---------------------------------------------------------------------

  /** The `count` pages from `page` on are free. */
  ghost predicate FreeRun(v: seq<bool>, page: nat, count: nat)
  {
    page + count <= |v| && forall k :: page <= k < page + count ==> !v[k]
  }

  /** Some run of `count` free pages lies between `from` and `to`. */
  ghost predicate HasRun(v: seq<bool>, from: nat, to: nat, count: nat)
  {
    exists page: nat :: from <= page && page + count <= to && FreeRun(v, page, count)
  }

  /** Every free run of `count` pages below `limit` begins before `index` and ends behind it. */
  ghost predicate AllCross(v: seq<bool>, index: nat, limit: nat, count: nat)
  {
    forall page: nat {:trigger FreeRun(v, page, count)} ::
      page + count <= limit && FreeRun(v, page, count) ==> page < index < page + count
  }

  function FreeCount(v: seq<bool>, limit: nat): (n: nat)
    requires limit <= |v|
    ensures n <= limit
  {
    if limit == 0 then 0 else FreeCount(v, limit - 1) + if v[limit - 1] then 0 else 1
  }

  /** `v'` is `v` with the run of `count` pages from `page` on set to `used`. */
  ghost predicate RunSet(v: seq<bool>, v': seq<bool>, page: nat, count: nat, used: bool)
  {
    |v'| == |v| && forall k :: 0 <= k < |v| ==> v'[k] == if page <= k < page + count then used else v[k]
  }

  lemma {:induction false} CountFilled(v: seq<bool>, v': seq<bool>, limit: nat, page: nat, count: nat, used: bool)
    requires RunSet(v, v', page, count, used) && limit <= |v|
    requires forall k :: page <= k < page + count && k < |v| ==> v[k] == !used
    ensures var inside := if limit <= page then 0 else if limit <= page + count then limit - page else count;
            FreeCount(v', limit) == if used then FreeCount(v, limit) - inside else FreeCount(v, limit) + inside
  {
    if limit > 0 { CountFilled(v, v', limit - 1, page, count, used); }
  }

  /** The `count` pages from `page` on are in use, and page 0, which is never given out, is not
      among them. */
  ghost predicate UsedRun(v: seq<bool>, page: nat, count: nat)
  {
    page + count <= |v| && forall k :: page <= k < page + count ==> k != 0 && v[k]
  }

  /** Clearing a run adds its length to the count exactly when all of it was set. */
  lemma {:induction false} CountCleared(v: seq<bool>, v': seq<bool>, limit: nat, page: nat, count: nat)
    requires RunSet(v, v', page, count, false) && limit <= |v|
    ensures var end := if limit <= page then page else if limit <= page + count then limit else page + count;
            && FreeCount(v', limit) <= FreeCount(v, limit) + (end - page)
            && (FreeCount(v', limit) == FreeCount(v, limit) + (end - page) <==> forall k :: page <= k < end ==> v[k])
  {
    if limit > 0 {
      CountCleared(v, v', limit - 1, page, count);
      assert page < limit <= page + count ==> !v'[limit - 1];
    }
  }

  /** No free page is the same as a count of 0. */
  lemma {:induction false} NoneFree(v: seq<bool>, limit: nat)
    requires limit <= |v|
    ensures FreeCount(v, limit) == 0 <==> forall k :: 0 <= k < limit ==> v[k]
  {
    if limit > 0 { NoneFree(v, limit - 1); }
  }

  /** After a scan from `from` to `at` the last `i` pages are a streak of free ones, behind a used
      one or the start, and no run of `count` has been passed. */
  ghost predicate Streak(v: seq<bool>, from: nat, at: nat, i: nat, count: nat)
  {
    && from + i <= at && (at <= |v| || i == 0)
    && (i > 0 ==> FreeRun(v, at - i, i))
    && (from < at - i && at <= |v| ==> v[at - i - 1])
    && (forall page: nat {:trigger FreeRun(v, page, count)} :: from <= page && page + count <= at ==> !FreeRun(v, page, count))
  }

  /** One page further. */
  lemma StreakStep(v: seq<bool>, from: nat, at: nat, i: nat, count: nat)
    requires Streak(v, from, at, i, count) && i < count && at < |v|
    ensures v[at] ==> Streak(v, from, at + 1, 0, count)
    ensures !v[at] ==> FreeRun(v, at - i, i + 1) && (i + 1 < count ==> Streak(v, from, at + 1, i + 1, count))
    ensures !v[at] && i + 1 == count ==>
              forall page: nat {:trigger FreeRun(v, page, count)} :: from <= page < at - i ==> !FreeRun(v, page, count)
  {
    forall page: nat | from <= page && page + count <= at + 1 && FreeRun(v, page, count)
      ensures !v[at] && i + 1 >= count && page >= at - i
    {
      assert page <= at < page + count;
    }
  }

  /** The first run of `count` free pages between `from` and `limit` has been set, nothing else. */
  ghost predicate Taken(v: seq<bool>, v': seq<bool>, from: nat, limit: nat, page: nat, count: nat)
  {
    && from <= page && page + count <= limit && FreeRun(v, page, count) && RunSet(v, v', page, count, true)
    && (forall p: nat {:trigger FreeRun(v, p, count)} :: from <= p < page ==> !FreeRun(v, p, count))
  }

  // ---- the allocator -----------------------------------------------------------------------

  datatype Outcome = Null | Pages(address: nat) | Panic

  class Allocator {
    const bitmap: Bitmap
    /** Where the next scan begins. */
    var lastIndex: nat
    var highestUsable: nat
    var usedPages: int
    var freePages: int

    function Limit(): nat
      reads `highestUsable
    {
      highestUsable / PAGE_SIZE
    }

    /** The counter of free pages is the number of clear bits, and page 0 is never free. */
    ghost predicate Valid()
      reads this, bitmap.buffer
    {
      && bitmap.Valid() && 0 < Limit() <= bitmap.size && lastIndex <= Limit()
      && bitmap.View()[0] && freePages == FreeCount(bitmap.View(), Limit())
    }

    /** Takes over a bitmap whose counts have been established, with page 0 in use. */
    constructor (pages: Bitmap, highest: nat, used: int, free: int)
      requires pages.Valid() && 0 < highest / PAGE_SIZE <= pages.size && pages.View()[0]
      requires free == FreeCount(pages.View(), highest / PAGE_SIZE)
      ensures Valid() && bitmap == pages && highestUsable == highest && lastIndex == 0
      ensures usedPages == used && freePages == free
    {
      bitmap, lastIndex, highestUsable, usedPages, freePages := pages, 0, highest, used, free;
    }

    /** Marks a run, page by page. */
    method MarkRun(page: nat, end: nat, used: bool)
      requires bitmap.Valid() && page <= end <= bitmap.size
      modifies bitmap.buffer
      ensures RunSet(old(bitmap.View()), bitmap.View(), page, end - page, used)
    {
      var j := page;
      while j < end
        invariant page <= j <= end
        invariant RunSet(old(bitmap.View()), bitmap.View(), page, j - page, used)
      {
        bitmap.Set(j, used);
        j := j + 1;
      }
    }

    /** One pass: from where the last scan ended up to `limit`. The first run of `count` free pages
        is taken and its address returned; 0 means that there is none. */
    method AllocateInternal(count: nat, limit: nat) returns (address: nat)
      requires bitmap.Valid() && limit <= bitmap.size && 0 < bitmap.size && bitmap.View()[0] && count > 0
      modifies `lastIndex, bitmap.buffer
      ensures address == 0 <==> !HasRun(old(bitmap.View()), old(lastIndex), limit, count)
      ensures address == 0 ==> bitmap.View() == old(bitmap.View())
      ensures address == 0 ==> lastIndex == if old(lastIndex) < limit then limit else old(lastIndex)
      ensures address != 0 ==>
                address % PAGE_SIZE == 0 && Taken(old(bitmap.View()), bitmap.View(), old(lastIndex), limit, address / PAGE_SIZE, count)
                && lastIndex == address / PAGE_SIZE + count
    {
      ghost var v, from := bitmap.View(), lastIndex;
      var i := 0;
      while lastIndex < limit
        invariant from <= lastIndex && (lastIndex <= limit || lastIndex == from) && i < count
        invariant bitmap.View() == v && Streak(v, from, lastIndex, i, count)
        modifies `lastIndex, bitmap.buffer
        decreases limit - lastIndex
      {
        var used := bitmap.Bit(lastIndex);
        StreakStep(v, from, lastIndex, i, count);
        lastIndex := lastIndex + 1;
        if !used {
          i := i + 1;
          if i == count {
            var page := lastIndex - count;
            MarkRun(page, lastIndex, true);
            address := page * PAGE_SIZE;
            assert v[0] && FreeRun(v, page, count) && page != 0;
            return;
          }
        } else {
          i := 0;
        }
      }
      address := 0;
    }

    /** Takes `count` consecutive free pages: the first run from where the last scan ended, or, if
        there is none, the first one before. The kernel panics exactly when no
        run lies on either side of the starting point: for one page exactly when none is free, for
        several also when there are free runs but all of them cross the starting point. */
    method Allocate(count: nat) returns (r: Outcome)
      requires Valid()
      modifies `lastIndex, `usedPages, `freePages, bitmap.buffer
      ensures Valid() && (count == 0 <==> r == Null)
      ensures !r.Pages? ==> bitmap.View() == old(bitmap.View()) && usedPages == old(usedPages) && freePages == old(freePages)
      ensures r.Pages? ==> r.address % PAGE_SIZE == 0
      ensures r.Pages? ==>
                var page := r.address / PAGE_SIZE;
                && 0 < page && page + count <= Limit() && FreeRun(old(bitmap.View()), page, count)
                && RunSet(old(bitmap.View()), bitmap.View(), page, count, true)
                && lastIndex == page + count
      ensures r.Pages? ==>
                var page := r.address / PAGE_SIZE;
                var from := if HasRun(old(bitmap.View()), old(lastIndex), Limit(), count) then old(lastIndex) else 0;
                && from <= page && (from < old(lastIndex) ==> page + count <= old(lastIndex))
                && forall p: nat {:trigger FreeRun(old(bitmap.View()), p, count)} ::
                     from <= p < page ==> !FreeRun(old(bitmap.View()), p, count)
      ensures r.Pages? ==> usedPages == old(usedPages) + count && freePages == old(freePages) - count
      ensures r.Panic? <==> count > 0 && !HasRun(old(bitmap.View()), old(lastIndex), Limit(), count)
                            && !HasRun(old(bitmap.View()), 0, old(lastIndex), count)
      ensures count == 1 ==> (r.Panic? <==> old(freePages) == 0)
      ensures count > 0 && HasRun(old(bitmap.View()), 0, Limit(), count) ==>
                (r.Panic? <==> AllCross(old(bitmap.View()), old(lastIndex), Limit(), count))
    {
      if count == 0 {
        return Null;
      }
      ghost var v := bitmap.View();
      SinglePage(v, lastIndex, Limit());
      RunMissed(v, lastIndex, Limit(), count);
      var index := lastIndex;
      var address := AllocateInternal(count, Limit());
      if address == 0 {
        lastIndex := 0;
        address := AllocateInternal(count, index);
        if address == 0 {
          return Panic;
        }
      }
      CountFilled(v, bitmap.View(), Limit(), address / PAGE_SIZE, count, true);
      usedPages := usedPages + count;
      freePages := freePages - count;
      r := Pages(address);
    }

    /** Gives back a run of pages. The counter still agrees with the bits exactly when all of them
        were in use and page 0 is not among them. */
    method Free(ptr: nat, count: nat)
      requires Valid() && (ptr != 0 ==> ptr / PAGE_SIZE + count <= Limit())
      modifies `usedPages, `freePages, bitmap.buffer
      ensures ptr == 0 ==> bitmap.View() == old(bitmap.View()) && usedPages == old(usedPages) && freePages == old(freePages)
      ensures ptr != 0 ==> RunSet(old(bitmap.View()), bitmap.View(), ptr / PAGE_SIZE, count, false)
      ensures ptr != 0 ==> usedPages == old(usedPages) - count && freePages == old(freePages) + count
      ensures Valid() <==> ptr == 0 || UsedRun(old(bitmap.View()), ptr / PAGE_SIZE, count)
    {
      if ptr == 0 {
        return;
      }
      ghost var v := bitmap.View();
      var page := ptr / PAGE_SIZE;
      MarkRun(page, page + count, false);
      CountCleared(v, bitmap.View(), Limit(), page, count);
      usedPages := usedPages - count;
      freePages := freePages + count;
    }
  }

  // ---- completeness ------------------------------------------------------------------------

  /** A single free page always lies on one side of the starting point. */
  lemma SinglePage(v: seq<bool>, index: nat, limit: nat)
    requires index <= limit <= |v|
    ensures HasRun(v, index, limit, 1) || HasRun(v, 0, index, 1) <==> FreeCount(v, limit) > 0
  {
    NoneFree(v, limit);
    if FreeCount(v, limit) > 0 {
      var k :| 0 <= k < limit && !v[k];
      assert FreeRun(v, k, 1);
    }
    if HasRun(v, index, limit, 1) {
      var page: nat :| index <= page && page + 1 <= limit && FreeRun(v, page, 1);
      assert !v[page];
    }
    if HasRun(v, 0, index, 1) {
      var page: nat :| 0 <= page && page + 1 <= index && FreeRun(v, page, 1);
      assert !v[page];
    }
  }

  /** There is a run exactly where enough bits in a row are clear. */
  lemma RunThere(v: seq<bool>, from: nat, to: nat, page: nat, count: nat)
    requires from <= page && page + count <= to <= |v| && forall k :: page <= k < page + count ==> !v[k]
    ensures HasRun(v, from, to, count)
  {
    assert FreeRun(v, page, count);
  }

  lemma RunWhere(v: seq<bool>, from: nat, to: nat, count: nat) returns (page: nat)
    requires HasRun(v, from, to, count)
    ensures from <= page && page + count <= to && page + count <= |v| && forall k :: page <= k < page + count ==> !v[k]
  {
    page :| from <= page && page + count <= to && FreeRun(v, page, count);
  }

  lemma RunMissed(v: seq<bool>, index: nat, limit: nat, count: nat)
    requires index <= limit <= |v| && count > 0
    ensures !HasRun(v, index, limit, count) && !HasRun(v, 0, index, count) <==> AllCross(v, index, limit, count)
  {
  }

  lemma CountThree(v: seq<bool>)
    requires |v| >= 3 && v[0] && !v[1] && !v[2]
    ensures FreeCount(v, 3) == 2
  {
    assert FreeCount(v, 1) == 0 && FreeCount(v, 2) == 1;
  }

  /** A first page is in use, the next two are free, and yet a request for two pages makes the kernel
      panic: the last scan ended between them. */
  method MissesFreeRun() returns (pages: Allocator, r: Outcome)
    ensures pages.Valid() && HasRun(pages.bitmap.View(), 0, pages.Limit(), 2) && r.Panic?
  {
    var bytes := new bv8[1](_ => 0);
    var bitmap := new Bitmap(bytes, 3);
    bitmap.Set(0, true);
    CountThree(bitmap.View());
    pages := new Allocator(bitmap, 3 * PAGE_SIZE, 1, 2);
    assert FreeRun(bitmap.View(), 1, 1);
    r := pages.Allocate(1);
    pages.Free(r.address, 1);
    assert FreeRun(bitmap.View(), 1, 2);
    r := pages.Allocate(2);
  }

  /** Giving back what was allocated restores the bitmap. */
  lemma FreeUndoesAllocate(v: seq<bool>, taken: seq<bool>, freed: seq<bool>, page: nat, count: nat)
    requires FreeRun(v, page, count) && RunSet(v, taken, page, count, true) && RunSet(taken, freed, page, count, false)
    ensures freed == v
  {
  }
}
