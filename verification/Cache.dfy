/**
 The page cache: pages are read from the file when first asked for, and written
 back only when the database is closed. Through it the pager's pages appear as
 one sequence, which is how every other module sees them.
 */
module Cache {
  import opened Pages
  import opened Pagers

  const INITIAL_PAGE_CAPACITY: nat := 16
  const UINT32_MAX: int := 0xFFFF_FFFF

  class PageCache {
    // The file on disk.
    var disk: seq<Page>

    // How many pages the database spans, and the cached ones.
    var numPages: nat
    var slots: array<Option<Page>>
    var freeHead: nat

    // A page the file does not have yet is always in the cache.
    ghost predicate Valid()
      reads this, slots
    {
      && |disk| <= numPages <= slots.Length <= UINT32_MAX
      && (forall p :: |disk| <= p < numPages ==> slots[p].Some?)
      && (forall p :: numPages <= p < slots.Length ==> slots[p].None?)
    }

    ghost function PageAt(p: nat): Page
      requires Valid() && p < numPages
      reads this, slots
    {
      if slots[p].Some? then slots[p].value else disk[p]
    }

    // The pages of the database, wherever each one is.
    ghost function View(): (v: seq<Page>)
      requires Valid()
      reads this, slots
      ensures |v| == numPages && forall p :: 0 <= p < numPages ==> v[p] == PageAt(p)
    {
      seq(numPages, p requires 0 <= p < numPages && Valid() reads this, slots => PageAt(p))
    }

    ghost predicate Resident(p: nat)
      requires Valid()
      reads this, slots
    {
      p < numPages && slots[p].Some?
    }

    /** Opens a file, none of its pages in the cache yet. */
    constructor Open(file: seq<Page>)
      requires |file| <= UINT32_MAX
      ensures Valid() && fresh(slots) && View() == file && disk == file && freeHead == 0
    {
      disk, numPages, freeHead := file, |file|, 0;
      slots := new Option<Page>[if |file| > INITIAL_PAGE_CAPACITY then |file| else INITIAL_PAGE_CAPACITY](_ => None);
    }

    // Grows the cache to at least `needed` slots, doubling.
    method GrowPageCache(needed: nat)
      requires Valid() && needed <= UINT32_MAX
      modifies this`slots
      ensures Valid() && fresh(slots) && needed <= slots.Length && View() == old(View())
      ensures forall p :: Resident(p) == old(Resident(p))
    {
      var newCapacity := if slots.Length > UINT32_MAX / 2 then UINT32_MAX else slots.Length * 2;
      if newCapacity < needed { newCapacity := needed; }
      var grown := new Option<Page>[newCapacity](_ => None);
      forall i | 0 <= i < slots.Length { grown[i] := slots[i]; }
      slots := grown;
    }

    /** Fetches a page, reading it from the file on a miss; the page just past the end is added, blank. */
    method GetPage(p: nat) returns (page: Page)
      requires Valid() && p <= numPages && p < UINT32_MAX
      modifies this, slots
      ensures Valid() && Resident(p) && page == View()[p]
      ensures View() == if p < old(numPages) then old(View()) else old(View()) + [Blank]
      ensures freeHead == old(freeHead) && disk == old(disk)
      ensures forall q :: old(Resident(q)) ==> Resident(q)
      ensures slots == old(slots) || fresh(slots)
    {
      if p >= slots.Length { GrowPageCache(p + 1); }
      if slots[p].None? {
        page := Blank;
        if p < numPages { page := disk[p]; }
        slots[p] := Some(page);
        if p >= numPages { numPages := p + 1; }
      }
      page := slots[p].value;
    }

    // Writes through the pointer a fetch handed out.
    method Write(p: nat, page: Page)
      requires Valid() && Resident(p)
      modifies slots
      ensures Valid() && Resident(p) && View() == old(View())[p := page]
    {
      slots[p] := Some(page);
    }

    /** Allocates a page exactly as the pager over all the pages does. */
    method AllocatePage(ghost free: seq<nat>) returns (p: nat, ghost free': seq<nat>)
      requires Valid() && FreeList(View(), freeHead, free) && 0 < numPages < UINT32_MAX
      modifies this, slots
      ensures Valid() && Resident(p) && FreeList(View(), freeHead, free')
      ensures if |free| > 0
              then p == old(freeHead) == free[0] && View() == old(View())[p := Blank] && free' == free[1..]
              else p == |old(View())| && View() == old(View()) + [Blank] && free' == []
      ensures slots == old(slots) || fresh(slots)
    {
      ghost var v := View();
      if freeHead != 0 {
        p := freeHead;
        FreeListPop(v, free);
        var page := GetPage(p);
        freeHead := page.nextFree;
        Write(p, Blank);
        free' := free[1..];
        assert View() == v[p := Blank];
        return;
      }
      p := numPages;
      free' := [];
      FreeListFrame(v, freeHead, free, v + [Blank]);
      var page := GetPage(p);
    }

    /** Frees a page exactly as the pager over all the pages does. */
    method FreePage(p: nat, ghost free: seq<nat>)
      requires Valid() && FreeList(View(), freeHead, free) && 0 < p < numPages && p < UINT32_MAX && p !in free
      modifies this, slots
      ensures Valid() && FreeList(View(), freeHead, [p] + free) && View() == old(View())[p := Free(old(freeHead))]
      ensures slots == old(slots) || fresh(slots)
    {
      ghost var v := View();
      FreeListPush(v, freeHead, free, p);
      var page := GetPage(p);
      Write(p, Free(freeHead));
      freeHead := p;
      assert View() == v[p := Free(old(freeHead))];
    }

    // Writes one cached page back to its place in the file.
    method Flush(p: nat)
      requires Valid() && Resident(p) && p <= |disk|
      modifies this`disk
      ensures Valid() && View() == old(View())
      ensures disk == if p < |old(disk)| then old(disk)[p := View()[p]] else old(disk) + [View()[p]]
    {
      var page := slots[p].value;
      disk := if p < |disk| then disk[p := page] else disk + [page];
    }

    // Writes a page back if it is in the cache, which then no longer holds it.
    method FlushAndDrop(p: nat)
      requires Valid() && p < numPages && p <= |disk|
      modifies this`disk, slots
      ensures Valid() && View() == old(View()) && p < |disk| && disk[p] == View()[p]
      ensures forall q :: 0 <= q < p ==> disk[q] == old(disk[q])
    {
      if slots[p].None? { return; }
      Flush(p);
      slots[p] := None;
    }

    /**
     Writes the head of the free list into the header and flushes every cached
     page: the file then holds exactly the pages the database had.
     */
    method Close() returns (file: seq<Page>)
      requires Valid() && numPages > 0 && View()[0].Header?
      modifies this, slots
      ensures file == old(View())[0 := Header(old(View())[0].catalogRoot, old(freeHead))]
    {
      ghost var before := View();
      var header := GetPage(0);
      Write(0, Header(header.catalogRoot, freeHead));
      ghost var v := View();
      for i := 0 to numPages
        invariant slots == old(slots) || fresh(slots)
        invariant Valid() && numPages == |v| && View() == v
        invariant i <= |disk| && forall p :: 0 <= p < i ==> disk[p] == v[p]
      {
        FlushAndDrop(i);
      }
      file := disk;
      assert file == v;
    }
  }
}
