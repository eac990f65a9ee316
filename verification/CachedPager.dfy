/**
 The cache stands in for the pager: whatever is done to both, they go on presenting the
 same pages and the same free list, and what closing the cache leaves in the file is what
 closing the database says it leaves.
 */
module CachedPager {
  import opened Pages
  import opened Pagers
  import opened Cache
  import opened Databases
  import opened Reopening

  ghost predicate Presents(cache: PageCache, pager: Pager)
    reads cache, cache.slots, pager
  {
    cache.Valid() && cache.View() == pager.pages && cache.freeHead == pager.freeHead
  }

  method OpenBoth(maxKeys: nat, file: seq<Page>) returns (cache: PageCache, pager: Pager)
    requires |file| <= UINT32_MAX
    ensures fresh(cache) && fresh(cache.slots) && fresh(pager)
    ensures Presents(cache, pager) && pager.pages == file && pager.maxKeys == maxKeys
  {
    cache := new PageCache.Open(file);
    pager := new Pager.Open(maxKeys, file);
  }

  // Reading a page, wherever the cache has to get it from.
  method ReadBoth(cache: PageCache, pager: Pager, p: nat) returns (page: Page)
    requires Presents(cache, pager) && p < |pager.pages|
    modifies cache, cache.slots
    ensures Presents(cache, pager) && page == pager.pages[p]
    ensures cache.slots == old(cache.slots) || fresh(cache.slots)
  {
    page := cache.GetPage(p);
  }

  method SetBoth(cache: PageCache, pager: Pager, p: nat, e: Page)
    requires Presents(cache, pager) && p < |pager.pages|
    modifies cache, cache.slots, pager`pages
    ensures Presents(cache, pager) && pager.pages == old(pager.pages)[p := e]
    ensures cache.slots == old(cache.slots) || fresh(cache.slots)
  {
    var page := cache.GetPage(p);
    cache.Write(p, e);
    pager.Set(p, e);
  }

  method AllocateBoth(cache: PageCache, pager: Pager) returns (p: nat)
    requires Presents(cache, pager) && FreeList(pager.pages, pager.freeHead, pager.free)
    requires 0 < |pager.pages| < UINT32_MAX
    modifies cache, cache.slots, pager`pages, pager`freeHead, pager`free
    ensures Presents(cache, pager) && FreeList(pager.pages, pager.freeHead, pager.free)
    ensures if |old(pager.free)| > 0 then p == old(pager.freeHead) else p == |old(pager.pages)|
    ensures cache.slots == old(cache.slots) || fresh(cache.slots)
  {
    ghost var free';
    p, free' := cache.AllocatePage(pager.free);
    var q := pager.AllocatePage();
  }

  method FreeBoth(cache: PageCache, pager: Pager, p: nat)
    requires Presents(cache, pager) && FreeList(pager.pages, pager.freeHead, pager.free)
    requires 0 < p < |pager.pages| && p !in pager.free
    modifies cache, cache.slots, pager`pages, pager`freeHead, pager`free
    ensures Presents(cache, pager) && FreeList(pager.pages, pager.freeHead, pager.free)
    ensures pager.free == [p] + old(pager.free)
    ensures cache.slots == old(cache.slots) || fresh(cache.slots)
  {
    cache.FreePage(p, pager.free);
    pager.FreePage(p);
  }

  /** Flushing the cached pages leaves the file that a closed database is opened from. */
  method CloseBoth(cache: PageCache, db: Database) returns (file: seq<Page>)
    requires Presents(cache, db.pager) && db.Consistent()
    modifies cache, cache.slots, db.pager
    ensures FileOf(file, db) && db.pager.pages == file
  {
    db.Inside();
    file := cache.Close();
    var closed := DbClose(db);
    assert file == closed;
  }
}
