/** What findFreeBlock, splitBlock, growHeap and malloc promise, stated on the spec functions
    of Engine. Apart from MallocZero, the lemmas are about AllocSpec, which is malloc once
    ALIGN4 has produced a non-zero n. */
module MallocProps {
  import opened Heap
  import opened Placement
  import opened Align
  import opened Engine

  /** The list index findFreeBlock answers with for a request of n bytes. */
  ghost function Choice(st: Store, p: Policy, n: nat): (r: Option<nat>)
    requires Inv(st)
    ensures r.Some? ==> r.value < |st.blocks|
  {
    Search(p, List(st), n, CursorIndex(st))
  }

  /** After the search, next_fit_ptr is the block findFreeBlock returns, under every policy;
      on a miss *last is the tail of the list, so growHeap appends after it. */
  lemma FindSetsCursor(st: Store, p: Policy, n: nat)
    requires Inv(st)
    ensures var (s, found, last) := Find(st, p, n);
      s.cursor == found && found == AtIdx(st.blocks, Choice(st, p, n)) &&
      (found.None? ==> last == AtIdx(st.blocks, TailIdx(st.blocks)))
  {
    if Choice(st, p, n).None? {
      MissLeavesTail(p, List(st), n, CursorIndex(st));
    }
  }

  /** splitBlock(b, n) on a block of at least n + H bytes: b keeps its flag, shrinks to n and
      links to a free remainder of size - n - H bytes at b + H + n, which inherits b's link.
      Every other listed header, flag included, is as it was. The bytes covered are
      unchanged; num_splits and num_blocks +1, max_heap +H. */
  lemma SplitOutcome(st: Store, b: Addr, n: nat)
    requires Inv(st) && b in st.blocks && n % 4 == 0 && st.hdr[b].size >= n + H
    ensures var r := SplitSpec(st, b, n); var rem := b + H + n; var i := IndexOf(st.blocks, b);
      b in r.hdr && rem in r.hdr &&
      r.hdr[b] == Header(n, Some(rem), st.hdr[b].free) &&
      r.hdr[rem] == Header(st.hdr[b].size - n - H, st.hdr[b].next, true) &&
      r.blocks == InsertAt(st.blocks, i + 1, rem) &&
      (forall a :: a in st.blocks && a != b ==> a in r.hdr && r.hdr[a] == st.hdr[a]) &&
      r.top == st.top && Bytes(List(r)) == Bytes(List(st)) &&
      r.stats == st.stats.(splits := st.stats.splits + 1, blocks := st.stats.blocks + 1,
                           maxHeap := st.stats.maxHeap + H)
  {
    var r := SplitSpec(st, b, n);
    SplitSpecKeeps(st, b, n);
    CoversHeap(st.hdr, st.blocks, st.base, st.top);
    CoversHeap(r.hdr, r.blocks, r.base, r.top);
  }

  /** splitBlock writes no listed header but b's. */
  lemma SplitSpecKeeps(st: Store, b: Addr, n: nat)
    requires Inv(st) && b in st.blocks && n % 4 == 0 && st.hdr[b].size >= n + H
    ensures var r := SplitSpec(st, b, n);
      forall a :: a in st.blocks && a != b ==> a in r.hdr && r.hdr[a] == st.hdr[a]
  {
    SplitKeepsOthers(st.hdr, st.blocks, st.base, st.top, IndexOf(st.blocks, b), n);
  }

  /** malloc(0), and malloc of the three sizes whose alignment wraps to 0, return null and
      change nothing: no search, no growth, no counter. */
  lemma MallocZero(st: Store, p: Policy, size: nat, granted: bool)
    requires Inv(st) && size < U64 && (size == 0 || size > U64 - 4)
    ensures MallocSpec(st, p, size, granted) == (st, None)
  {
    Align4Zero(size);
  }

  /** A request the search answers is served from that block: its payload address is returned,
      the block is in use and becomes the cursor, the heap does not grow; num_reuses and
      num_mallocs +1, num_requested +n, num_grows unchanged. */
  lemma MallocReuses(st: Store, p: Policy, n: nat, granted: bool)
    requires Inv(st) && 0 < n && n % 4 == 0
    requires Choice(st, p, n).Some?
    ensures var b := st.blocks[Choice(st, p, n).value];
      var r := AllocSpec(st, p, n, granted);
      r.1 == Some(b + H) && b in r.0.hdr && !r.0.hdr[b].free &&
      r.0.cursor == Some(b) && r.0.top == st.top &&
      r.0.stats.reuses == st.stats.reuses + 1 && r.0.stats.grows == st.stats.grows &&
      r.0.stats.mallocs == st.stats.mallocs + 1 && r.0.stats.requested == st.stats.requested + n &&
      r.0.stats.frees == st.stats.frees && r.0.stats.coalesces == st.stats.coalesces
  {
  }

  /** A reused block is the only listed block whose header malloc writes, split or not: every
      other block keeps its size, its link and, in particular, its free flag. */
  lemma MallocReuseKeepsOthers(st: Store, p: Policy, n: nat, granted: bool)
    requires Inv(st) && 0 < n && n % 4 == 0
    requires Choice(st, p, n).Some?
    ensures var b := st.blocks[Choice(st, p, n).value]; var r := AllocSpec(st, p, n, granted);
      forall a :: a in st.blocks && a != b ==> a in r.0.hdr && r.0.hdr[a] == st.hdr[a]
  {
    var b := st.blocks[Choice(st, p, n).value];
    var s2 := Count(Find(st, p, n).0, n);
    AllocFound(st, p, n, granted);
    ReuseKeeps(s2, b, n);
  }

  /** A found block of at least n + H + 4 bytes is split: the returned block holds exactly n
      bytes and the free remainder, of at least 4 bytes, follows it in the list. No other
      listed header changes (MallocReuseKeepsOthers). */
  lemma MallocSplitsLargeBlock(st: Store, p: Policy, n: nat, granted: bool)
    requires Inv(st) && 0 < n && n % 4 == 0
    requires Choice(st, p, n).Some?
    requires st.hdr[st.blocks[Choice(st, p, n).value]].size >= n + H + 4
    ensures var k := Choice(st, p, n).value; var b := st.blocks[k]; var h := st.hdr[b];
      var rem := b + H + n; var r := AllocSpec(st, p, n, granted);
      b in r.0.hdr && rem in r.0.hdr &&
      r.0.hdr[b] == Header(n, Some(rem), false) &&
      r.0.hdr[rem] == Header(h.size - n - H, h.next, true) &&
      r.0.hdr[rem].size >= 4 &&
      r.0.blocks == InsertAt(st.blocks, k + 1, rem) &&
      r.0.stats.splits == st.stats.splits + 1 && r.0.stats.blocks == st.stats.blocks + 1 &&
      r.0.stats.maxHeap == st.stats.maxHeap + H
  {
    var k := Choice(st, p, n).value;
    var b := st.blocks[k];
    IndexOfListed(st.hdr, st.blocks, st.base, st.top, k);
    var (s1, found, last) := Find(st, p, n);
    var s2 := s1.(stats := s1.stats.(requested := s1.stats.requested + n));
    SplitOutcome(s2, b, n);
  }

  /** malloc's reuse of b writes no listed header but b's, split or not. */
  lemma ReuseKeeps(st: Store, b: Addr, n: nat)
    requires Inv(st) && b in st.blocks && n % 4 == 0
    ensures var r := ReuseSpec(st, b, n);
      forall a :: a in st.blocks && a != b ==> a in r.hdr && r.hdr[a] == st.hdr[a]
  {
    if st.hdr[b].size >= n + H + 4 {
      SplitSpecKeeps(st, b, n);
    }
  }

  /** A found block smaller than n + H + 4 bytes is handed out whole: only its flag changes. */
  lemma MallocKeepsSmallBlock(st: Store, p: Policy, n: nat, granted: bool)
    requires Inv(st) && 0 < n && n % 4 == 0
    requires Choice(st, p, n).Some?
    requires st.hdr[st.blocks[Choice(st, p, n).value]].size < n + H + 4
    ensures var b := st.blocks[Choice(st, p, n).value];
      var r := AllocSpec(st, p, n, granted);
      r.0.blocks == st.blocks && r.0.hdr == st.hdr[b := st.hdr[b].(free := false)] &&
      r.0.stats.splits == st.stats.splits && r.0.stats.blocks == st.stats.blocks &&
      r.0.stats.maxHeap == st.stats.maxHeap
  {
  }

  /** A request nothing answers grows the heap when sbrk succeeds: a block of exactly n bytes,
      in use and ending the list, at the old break, linked after the old tail (or made the
      head of an empty list). num_grows, num_blocks and num_mallocs +1, max_heap += n + H;
      next_fit_ptr is left null by the failed search. That no other header changes is
      MallocGrowKeepsOthers. */
  lemma MallocGrows(st: Store, p: Policy, n: nat)
    requires Inv(st) && 0 < n && n % 4 == 0
    requires Choice(st, p, n).None?
    ensures var r := AllocSpec(st, p, n, true); var m := |st.blocks|;
      r.1 == Some(st.top + H) && r.0.blocks == st.blocks + [st.top] &&
      st.top in r.0.hdr && r.0.hdr[st.top] == Header(n, None, false) &&
      r.0.top == st.top + H + n &&
      (m > 0 ==> st.blocks[m - 1] in r.0.hdr && r.0.hdr[st.blocks[m - 1]].next == Some(st.top)) &&
      r.0.heapList == (if m == 0 then Some(st.top) else st.heapList) &&
      r.0.cursor == None &&
      r.0.stats == st.stats.(grows := st.stats.grows + 1, blocks := st.stats.blocks + 1,
                             maxHeap := st.stats.maxHeap + n + H, mallocs := st.stats.mallocs + 1,
                             requested := st.stats.requested + n)
  {
    var m := |st.blocks|;
    if m > 0 {
      Bounded(st.hdr, st.blocks, st.base, st.top, m - 1);
    }
    AllocMissed(st, p, n, true);
    var s2 := Count(Find(st, p, n).0, n);
    assert s2 == st.(cursor := None, stats := st.stats.(requested := st.stats.requested + n));
  }

  /** On the growth path malloc rewrites, among the listed headers, only the old tail's link:
      every other listed block keeps its size, link and free flag. */
  lemma MallocGrowKeepsOthers(st: Store, p: Policy, n: nat)
    requires Inv(st) && 0 < n && n % 4 == 0
    requires Choice(st, p, n).None?
    ensures var r := AllocSpec(st, p, n, true); var m := |st.blocks|;
      (m > 0 ==> st.blocks[m - 1] in r.0.hdr &&
                 r.0.hdr[st.blocks[m - 1]] == st.hdr[st.blocks[m - 1]].(next := Some(st.top))) &&
      (forall a :: a in st.blocks && (m > 0 ==> a != st.blocks[m - 1]) ==> a in r.0.hdr && r.0.hdr[a] == st.hdr[a])
  {
    AllocMissed(st, p, n, true);
    var s2 := Count(Find(st, p, n).0, n);
    assert s2.hdr == st.hdr && s2.blocks == st.blocks && s2.top == st.top;
    GrowUsedKeeps(s2, n);
  }

  /** malloc's growth path rewrites only the old tail's link among the listed headers. */
  lemma GrowUsedKeeps(st: Store, n: nat)
    requires Inv(st) && n % 4 == 0
    ensures var r := GrowUsed(st, AtIdx(st.blocks, TailIdx(st.blocks)), n, true); var m := |st.blocks|;
      (m > 0 ==> st.blocks[m - 1] in r.0.hdr &&
                 r.0.hdr[st.blocks[m - 1]] == st.hdr[st.blocks[m - 1]].(next := Some(st.top))) &&
      (forall a :: a in st.blocks && (m > 0 ==> a != st.blocks[m - 1]) ==> a in r.0.hdr && r.0.hdr[a] == st.hdr[a])
  {
    var m := |st.blocks|;
    if m > 0 {
      Bounded(st.hdr, st.blocks, st.base, st.top, m - 1);
    }
    GrownKeepsOthers(st.hdr, st.blocks, st.base, st.top, n);
  }

  /** When the search answers nothing and sbrk fails, malloc returns null; only num_requested
      and the cleared next_fit_ptr record the attempt. */
  lemma MallocOutOfMemory(st: Store, p: Policy, n: nat)
    requires Inv(st) && 0 < n && n % 4 == 0
    requires Choice(st, p, n).None?
    ensures AllocSpec(st, p, n, false) ==
      (st.(cursor := None, stats := st.stats.(requested := st.stats.requested + n)), None)
  {
  }

  /** The payload malloc returns, when it returns one, belongs to a block that is in use and
      holds at least n bytes. */
  ghost predicate ServesRequest(r: (Store, Option<Addr>), n: nat) {
    r.1.Some? ==> r.1.value >= H && r.1.value - H in r.0.hdr &&
                  !r.0.hdr[r.1.value - H].free && r.0.hdr[r.1.value - H].size >= n
  }

  /** Under first, best and worst fit, a successful malloc returns the payload of a block that
      is in use and holds at least n bytes. */
  lemma MallocResultFits(st: Store, p: Policy, n: nat, granted: bool)
    requires Inv(st) && 0 < n && n % 4 == 0 && Searching(p)
    ensures ServesRequest(AllocSpec(st, p, n, granted), n)
  {
    if Choice(st, p, n).Some? {
      ReusedBlockFits(st, p, n, granted);
    } else if granted {
      MallocGrows(st, p, n);
    } else {
      MallocOutOfMemory(st, p, n);
    }
  }

  lemma ReusedBlockFits(st: Store, p: Policy, n: nat, granted: bool)
    requires Inv(st) && 0 < n && n % 4 == 0 && Searching(p)
    requires Choice(st, p, n).Some?
    ensures ServesRequest(AllocSpec(st, p, n, granted), n)
  {
    SearchFits(p, List(st), n, CursorIndex(st));
    var b := st.blocks[Choice(st, p, n).value];
    MallocReuses(st, p, n, granted);
    if st.hdr[b].size >= n + H + 4 {
      MallocSplitsLargeBlock(st, p, n, granted);
    } else {
      MallocKeepsSmallBlock(st, p, n, granted);
    }
  }

  /** Under first, best and worst fit, malloc never hands out a block that is in use: the
      answer is a free block or fresh memory above the break. */
  lemma MallocAvoidsUsedBlocks(st: Store, p: Policy, n: nat, granted: bool, b: Addr)
    requires Inv(st) && 0 < n && n % 4 == 0 && Searching(p)
    requires b in st.blocks && !st.hdr[b].free
    ensures AllocSpec(st, p, n, granted).1 != Some(b + H)
  {
    var i := IndexOf(st.blocks, b);
    assert List(st)[i] == st.hdr[b];
    SearchFits(p, List(st), n, CursorIndex(st));
    if Choice(st, p, n).Some? {
      MallocReuses(st, p, n, granted);
    } else if granted {
      Bounded(st.hdr, st.blocks, st.base, st.top, i);
      MallocGrows(st, p, n);
    } else {
      MallocOutOfMemory(st, p, n);
    }
  }

  /** malloc(n) leaves the size of every listed block smaller than n as it was: only the
      block it splits (which holds at least n + H + 4 bytes) shrinks, and growth only relinks
      the tail. realloc relies on this when it copies the old block's size after malloc. */
  lemma MallocKeepsSmallerBlocks(st: Store, p: Policy, n: nat, granted: bool, b: Addr)
    requires Inv(st) && 0 < n && n % 4 == 0 && b in st.blocks && st.hdr[b].size < n
    ensures b in AllocSpec(st, p, n, granted).0.hdr
    ensures AllocSpec(st, p, n, granted).0.hdr[b].size == st.hdr[b].size
  {
    var f := Find(st, p, n);
    var s2 := Count(f.0, n);
    if f.1.Some? {
      AllocFound(st, p, n, granted);
      ReuseKeepsSmallerBlock(s2, f.1.value, n, b);
    } else {
      AllocMissed(st, p, n, granted);
      var j := IndexOf(st.blocks, b);
      Bounded(st.hdr, st.blocks, st.base, st.top, j);
      var g := GrowSpec(s2, f.2, n, granted);
      if g.1.Some? {
        assert g.0.hdr[b].size == st.hdr[b].size;
      }
    }
  }

  /** The reuse of a found block x leaves every other block smaller than n as it was. */
  lemma ReuseKeepsSmallerBlock(st: Store, x: Addr, n: nat, b: Addr)
    requires Inv(st) && x in st.blocks && n % 4 == 0 && b in st.blocks && st.hdr[b].size < n
    ensures b in ReuseSpec(st, x, n).hdr && ReuseSpec(st, x, n).hdr[b].size == st.hdr[b].size
  {
    if st.hdr[x].size >= n + H + 4 {
      var j := IndexOf(st.blocks, b);
      var k := IndexOf(st.blocks, x);
      if j < k {
        Ordered(st.hdr, st.blocks, st.base, st.top, j, k);
      } else if k < j {
        Ordered(st.hdr, st.blocks, st.base, st.top, k, j);
      }
      assert SplitSpec(st, x, n).hdr[b] == st.hdr[b];
    }
  }

  /** Reuse before growth: when some listed block is free and large enough, malloc succeeds
      without moving the break, under every policy. */
  lemma MallocReusesBeforeGrowing(st: Store, p: Policy, n: nat, granted: bool, j: nat)
    requires Inv(st) && 0 < n && n % 4 == 0
    requires j < |st.blocks| && Fits(st.hdr[st.blocks[j]], n)
    ensures var r := AllocSpec(st, p, n, granted);
      r.1.Some? && r.0.top == st.top && r.0.stats.reuses == st.stats.reuses + 1
  {
    SearchFindsWhenSomethingFits(p, List(st), n, CursorIndex(st), j);
    MallocReuses(st, p, n, granted);
  }

  /** Next fit with a cursor, when no block fits: the cursor block itself is handed out, even
      when it is in use or too small, and the heap does not grow. */
  lemma NextFitMissReturnsCursor(st: Store, n: nat, granted: bool)
    requires Inv(st) && 0 < n && n % 4 == 0 && st.cursor.Some?
    requires forall j :: 0 <= j < |st.blocks| ==> !Fits(st.hdr[st.blocks[j]], n)
    ensures var r := AllocSpec(st, NextFit, n, granted);
      r.1 == Some(st.cursor.value + H) && r.0.top == st.top &&
      r.0.stats.reuses == st.stats.reuses + 1 && r.0.stats.grows == st.stats.grows
  {
    var c := CursorIndex(st).value;
    assert forall j :: c < j < |st.blocks| ==> !Fits(List(st)[j], n);
    MallocReuses(st, NextFit, n, granted);
  }

  /** With no policy selected, a non-empty heap answers every request with the head block. */
  lemma NoPolicyReturnsHead(st: Store, n: nat, granted: bool)
    requires Inv(st) && 0 < n && n % 4 == 0 && |st.blocks| > 0
    ensures AllocSpec(st, NoPolicy, n, granted).1 == Some(st.base + H)
  {
    MallocReuses(st, NoPolicy, n, granted);
  }
}
