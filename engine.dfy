/** The allocator's state as a value, and each operation of src/malloc.c as a function of it.

    The methods of class Allocator (allocator.dfy) are proved to produce exactly these
    states; the lemmas here state what the source promises about them. */
module Engine {
  import opened Heap
  import opened Placement
  import opened Align

  /** The nine global counters read by printStatistics. */
  datatype Stats = Stats(mallocs: int, frees: int, reuses: int, grows: int, splits: int,
                         coalesces: int, blocks: int, requested: int, maxHeap: int)

  const NoStats := Stats(0, 0, 0, 0, 0, 0, 0, 0, 0)

  /** Header memory, the list (ghost view), heapList, next_fit_ptr, the program break and the
      counters. `base` is the program break before the first sbrk. */
  datatype Store = Store(base: Addr, hdr: map<Addr, Header>, blocks: seq<Addr>,
                         heapList: Option<Addr>, cursor: Option<Addr>, top: Addr, stats: Stats)

  /** The allocator's invariant: the list tiles [base, top), heapList is its first block,
      next_fit_ptr is null or a listed block, and num_blocks counts the listed blocks. */
  ghost predicate Inv(st: Store) {
    Tiles(st.hdr, st.blocks, st.base, st.top) &&
    st.heapList == At(st.blocks, 0) &&
    (st.cursor.Some? ==> st.cursor.value in st.blocks) &&
    st.stats.blocks == |st.blocks|
  }

  /** The state at process start. */
  function Initial(base: Addr): (st: Store) {
    Store(base, map[], [], None, None, base, NoStats)
  }

  lemma InitialInv(base: Addr)
    ensures Inv(Initial(base))
  {
  }

  ghost function List(st: Store): (s: seq<Header>)
    requires Inv(st)
    ensures |s| == |st.blocks|
  {
    Headers(st.hdr, st.blocks)
  }

  /** The list position of next_fit_ptr. */
  ghost function CursorIndex(st: Store): (c: Option<nat>)
    requires Inv(st)
    ensures c.Some? ==> c.value < |st.blocks| && st.cursor == Some(st.blocks[c.value])
    ensures c.None? <==> st.cursor.None?
  {
    if st.cursor.None? then None else Some(IndexOf(st.blocks, st.cursor.value))
  }

  // ---------------------------------------------------------------------------
  // The operations.

  /** findFreeBlock(&last, n): the block chosen by the policy, *last, and the cursor set to
      the returned block. */
  ghost function Find(st: Store, p: Policy, n: nat): (r: (Store, Option<Addr>, Option<Addr>))
    requires Inv(st)
    ensures Inv(r.0) && r.0 == st.(cursor := r.1)
  {
    var s := List(st);
    var c := CursorIndex(st);
    var found := AtIdx(st.blocks, Search(p, s, n, c));
    (st.(cursor := found), found, AtIdx(st.blocks, LastVisited(p, s, n, c)))
  }

  /** num_requested += n. */
  ghost function Count(st: Store, n: nat): (r: Store)
    requires Inv(st)
    ensures Inv(r)
  {
    st.(stats := st.stats.(requested := st.stats.requested + n))
  }

  /** splitBlock(b, n). */
  ghost function SplitSpec(st: Store, b: Addr, n: nat): (r: Store)
    requires Inv(st) && b in st.blocks && n % 4 == 0 && st.hdr[b].size >= n + H
    ensures Inv(r) && r.base == st.base && r.top == st.top && r.heapList == st.heapList &&
            r.cursor == st.cursor && b in r.blocks && (forall a :: a in st.blocks ==> a in r.blocks)
    ensures r.stats.mallocs == st.stats.mallocs && r.stats.frees == st.stats.frees &&
            r.stats.reuses == st.stats.reuses && r.stats.grows == st.stats.grows &&
            r.stats.coalesces == st.stats.coalesces && r.stats.requested == st.stats.requested
  {
    var i := IndexOf(st.blocks, b);
    var blocks' := InsertAt(st.blocks, i + 1, b + H + n);
    SplitTiles(st.hdr, st.blocks, st.base, st.top, i, n);
    InsertAtKeeps(st.blocks, i + 1, b + H + n);
    assert blocks'[0] == st.blocks[0];
    st.(hdr := Split(st.hdr, b, n), blocks := blocks',
        stats := st.stats.(splits := st.stats.splits + 1, blocks := st.stats.blocks + 1,
                           maxHeap := st.stats.maxHeap + H))
  }

  /** growHeap(last, n), with `granted` saying whether sbrk extends the break. */
  ghost function GrowSpec(st: Store, last: Option<Addr>, n: nat, granted: bool): (r: (Store, Option<Addr>))
    requires Inv(st) && last == AtIdx(st.blocks, TailIdx(st.blocks)) && n % 4 == 0
    ensures Inv(r.0) && r.0.base == st.base && r.0.cursor == st.cursor
    ensures r.1.Some? <==> granted
    ensures r.1.Some? ==> r.1.value == st.top && st.top in r.0.blocks
    ensures r.1.None? ==> r.0 == st
    ensures forall a :: a in st.blocks ==> a in r.0.blocks
    ensures r.0.stats.mallocs == st.stats.mallocs && r.0.stats.frees == st.stats.frees &&
            r.0.stats.reuses == st.stats.reuses && r.0.stats.coalesces == st.stats.coalesces &&
            r.0.stats.requested == st.stats.requested
  {
    if !granted then (st, None)
    else
      GrowTiles(st.hdr, st.blocks, st.base, st.top, n);
      (st.(hdr := Grown(st.hdr, last, st.top, n), blocks := st.blocks + [st.top],
           heapList := if st.heapList.None? then Some(st.top) else st.heapList,
           top := st.top + H + n,
           stats := st.stats.(grows := st.stats.grows + 1, blocks := st.stats.blocks + 1,
                              maxHeap := st.stats.maxHeap + n + H)),
       Some(st.top))
  }

  /** malloc's epilogue: the block is marked in use and num_mallocs is incremented. */
  ghost function MarkUsed(st: Store, b: Addr): (r: Store)
    requires Inv(st) && b in st.blocks
    ensures Inv(r) && r.base == st.base && r.top == st.top && r.blocks == st.blocks &&
            r.cursor == st.cursor && r.heapList == st.heapList
    ensures r.stats == st.stats.(mallocs := st.stats.mallocs + 1)
  {
    SetFreeTiles(st.hdr, st.blocks, st.base, st.top, b, false);
    st.(hdr := SetFree(st.hdr, b, false), stats := st.stats.(mallocs := st.stats.mallocs + 1))
  }

  /** malloc's reuse of the found block b: split when it holds at least n + H + 4 bytes,
      num_reuses +1, then the epilogue. */
  ghost function ReuseSpec(st: Store, b: Addr, n: nat): (r: Store)
    requires Inv(st) && b in st.blocks && n % 4 == 0
    ensures Inv(r) && r.base == st.base && r.top == st.top && r.cursor == st.cursor &&
            r.heapList == st.heapList && (forall a :: a in st.blocks ==> a in r.blocks)
    ensures r.stats.mallocs == st.stats.mallocs + 1 && r.stats.reuses == st.stats.reuses + 1 &&
            r.stats.frees == st.stats.frees && r.stats.grows == st.stats.grows &&
            r.stats.coalesces == st.stats.coalesces && r.stats.requested == st.stats.requested
  {
    var s3 := if st.hdr[b].size >= n + H + 4 then SplitSpec(st, b, n) else st;
    MarkUsed(s3.(stats := s3.stats.(reuses := s3.stats.reuses + 1)), b)
  }

  /** malloc for an aligned, non-zero n: search, count the request, then reuse or grow. */
  ghost function AllocSpec(st: Store, p: Policy, n: nat, granted: bool): (r: (Store, Option<Addr>))
    requires Inv(st) && 0 < n && n % 4 == 0
    ensures Inv(r.0) && r.0.base == st.base
    ensures forall a :: a in st.blocks ==> a in r.0.blocks
    ensures r.0.stats.requested == st.stats.requested + n
    ensures r.0.stats.frees == st.stats.frees && r.0.stats.coalesces == st.stats.coalesces
    ensures r.1.None? ==> r.0.hdr == st.hdr && r.0.blocks == st.blocks && r.0.top == st.top
  {
    var (s1, found, last) := Find(st, p, n);
    var s2 := Count(s1, n);
    if found.Some? then
      var b := found.value;
      var q: Option<Addr> := Some(b + H);
      (ReuseSpec(s2, b, n), q)
    else
      MissLeavesTail(p, List(st), n, CursorIndex(st));
      GrowUsed(s2, last, n, granted)
  }

  /** malloc's growth path: growHeap after last; on success the new block is marked in use
      and its payload address is returned. */
  ghost function GrowUsed(st: Store, last: Option<Addr>, n: nat, granted: bool): (r: (Store, Option<Addr>))
    requires Inv(st) && last == AtIdx(st.blocks, TailIdx(st.blocks)) && n % 4 == 0
    ensures Inv(r.0) && r.0.base == st.base
  {
    var (s3, g) := GrowSpec(st, last, n, granted);
    if g.None? then (s3, None)
    else
      var q: Option<Addr> := Some(g.value + H);
      (MarkUsed(s3, g.value), q)
  }

  /** AllocSpec when the search answers b: the reuse of b after the request is counted. */
  lemma AllocFound(st: Store, p: Policy, n: nat, granted: bool)
    requires Inv(st) && 0 < n && n % 4 == 0 && Find(st, p, n).1.Some?
    ensures var b := Find(st, p, n).1.value; var q: Option<Addr> := Some(b + H);
      b in Find(st, p, n).0.blocks &&
      (ReuseSpec(Count(Find(st, p, n).0, n), b, n), q) == AllocSpec(st, p, n, granted)
  {
  }

  /** AllocSpec when the search answers nothing: growHeap after *last, then the epilogue. */
  lemma AllocMissed(st: Store, p: Policy, n: nat, granted: bool)
    requires Inv(st) && 0 < n && n % 4 == 0 && Find(st, p, n).1.None?
    ensures Find(st, p, n).2 == AtIdx(st.blocks, TailIdx(st.blocks))
    ensures GrowUsed(Count(Find(st, p, n).0, n), Find(st, p, n).2, n, granted) == AllocSpec(st, p, n, granted)
  {
    MissLeavesTail(p, List(st), n, CursorIndex(st));
  }

  /** malloc(size): the new state and the returned payload address. */
  ghost function MallocSpec(st: Store, p: Policy, size: nat, granted: bool): (r: (Store, Option<Addr>))
    requires Inv(st) && size < U64
    ensures Inv(r.0) && r.0.base == st.base
    ensures forall a :: a in st.blocks ==> a in r.0.blocks
    ensures r.0.stats.frees == st.stats.frees && r.0.stats.coalesces == st.stats.coalesces
  {
    var n := Align4(size);
    if n == 0 then (st, None) else AllocSpec(st, p, n, granted)
  }

  /** free and realloc take null or the payload address of a listed block. */
  ghost predicate FreeArg(st: Store, ptr: Option<Addr>) {
    ptr.Some? ==> ptr.value >= H && ptr.value - H in st.blocks
  }

  /** The index of *last* when free's predecessor scan stops for the block at index i of a
      list of m blocks: the predecessor's predecessor; for the head, the scan runs off the end
      and leaves the tail. The scan is a search for the block whose next is block i (block
      i - 1, none for the head), and *last is the block it passed last, as in findFreeBlock. */
  function BackwardIndex(m: nat, i: nat): (r: Option<nat>)
    requires i < m
    ensures r == Passed(0, if i == 0 then None else Some(i - 1), m)
    ensures r.Some? ==> r.value < m
  {
    if i == 0 then Some(m - 1) else if i == 1 then None else Some(i - 2)
  }

  /** The cursor repair after a merge: next_fit_ptr moves to `to` whenever the header it
      points at says free; otherwise it stays where it was. */
  function Repair(hdr: map<Addr, Header>, cursor: Option<Addr>, to: Addr): (r: Option<Addr>)
    ensures r == cursor || r == Some(to)
    ensures cursor.Some? && cursor.value in hdr && hdr[cursor.value].free ==> r == Some(to)
    ensures r != cursor ==> cursor.Some? && cursor.value in hdr && hdr[cursor.value].free
  {
    if cursor.Some? && cursor.value in hdr && hdr[cursor.value].free then Some(to) else cursor
  }

  /** One merge of free: a absorbs b; num_coalesces +1, num_blocks -1, max_heap unchanged. */
  ghost function Merge(st: Store, a: Addr, b: Addr, blocks': seq<Addr>): (r: Store)
    requires a in st.hdr && b in st.hdr
    ensures a in r.hdr && r.hdr[a].size == st.hdr[a].size + H + st.hdr[b].size &&
            r.hdr[a].next == st.hdr[b].next && r.hdr[a].free == st.hdr[a].free
    ensures r.base == st.base && r.top == st.top && r.heapList == st.heapList &&
            (r.cursor == st.cursor || r.cursor == Some(a))
    ensures r.stats == st.stats.(coalesces := st.stats.coalesces + 1, blocks := st.stats.blocks - 1)
  {
    var h := Absorb(st.hdr, a, b);
    st.(hdr := h, blocks := blocks', cursor := Repair(h, st.cursor, a),
        stats := st.stats.(coalesces := st.stats.coalesces + 1, blocks := st.stats.blocks - 1))
  }

  /** free's forward step: the current block absorbs its successor if that is free; otherwise
      nothing changes. */
  ghost function ForwardMerge(st: Store, cur: Addr, blocks': seq<Addr>): (r: Store)
    requires cur in st.hdr
    ensures var nx := st.hdr[cur].next;
      if nx.Some? && nx.value in st.hdr && st.hdr[nx.value].free then
        cur in r.hdr && r.hdr[cur].size == st.hdr[cur].size + H + st.hdr[nx.value].size &&
        r.hdr[cur].next == st.hdr[nx.value].next && r.stats.coalesces == st.stats.coalesces + 1
      else r == st
    ensures r.base == st.base && r.top == st.top && r.heapList == st.heapList &&
            r.stats.maxHeap == st.stats.maxHeap
  {
    var nx := st.hdr[cur].next;
    if nx.Some? && nx.value in st.hdr && st.hdr[nx.value].free then Merge(st, cur, nx.value, blocks') else st
  }

  /** free's first step: the block at c is marked free and num_frees is incremented. */
  ghost function Release(st: Store, c: Addr): (r: Store)
    requires Inv(st) && c in st.blocks
    ensures Inv(r)
  {
    SetFreeTiles(st.hdr, st.blocks, st.base, st.top, c, true);
    st.(hdr := SetFree(st.hdr, c, true), stats := st.stats.(frees := st.stats.frees + 1))
  }

  /** The list once block i has absorbed its successor (unchanged if i is the tail). */
  function Dropped(blocks: seq<Addr>, i: nat): seq<Addr>
    requires i < |blocks|
  {
    if i + 1 < |blocks| then RemoveAt(blocks, i + 1) else blocks
  }

  /** The list index of the block free(ptr) releases. */
  ghost function Released(st: Store, ptr: Option<Addr>): (i: nat)
    requires Inv(st) && FreeArg(st, ptr) && ptr.Some?
    ensures i < |st.blocks| && st.blocks[i] == ptr.value - H
  {
    IndexOf(st.blocks, ptr.value - H)
  }

  /** free's backward step merges: the block the predecessor scan leaves in *last* is free
      (after the released block was marked free). */
  ghost predicate BackwardFires(st: Store, ptr: Option<Addr>)
    requires Inv(st) && FreeArg(st, ptr)
    ensures BackwardFires(st, ptr) ==> ptr.Some? && Released(st, ptr) != 1
    ensures ptr.Some? && |st.blocks| == 1 ==> BackwardFires(st, ptr)
  {
    ptr.Some? &&
    var l := BackwardIndex(|st.blocks|, Released(st, ptr));
    l.Some? && Release(st, ptr.value - H).hdr[st.blocks[l.value]].free
  }

  /** free(ptr), as coded. When the backward step fires, the list view `blocks` is left as it
      was: the header links no longer describe a tiling (see the lemmas of FreeProps). */
  ghost function FreeSpec(st: Store, ptr: Option<Addr>): (r: Store)
    requires Inv(st) && FreeArg(st, ptr)
    ensures r.base == st.base && r.top == st.top && r.heapList == st.heapList
    ensures r.stats.frees == st.stats.frees + (if ptr.Some? then 1 else 0)
    ensures r.stats.mallocs == st.stats.mallocs && r.stats.reuses == st.stats.reuses &&
            r.stats.grows == st.stats.grows && r.stats.splits == st.stats.splits &&
            r.stats.requested == st.stats.requested && r.stats.maxHeap == st.stats.maxHeap
  {
    if ptr.None? then st
    else
      var c := ptr.value - H;
      var i := Released(st, ptr);
      var s1 := Release(st, c);
      if BackwardFires(st, ptr) then
        var a := st.blocks[BackwardIndex(|st.blocks|, i).value];
        ForwardMerge(Merge(s1, a, c, st.blocks), a, st.blocks)
      else
        ForwardMerge(s1, c, Dropped(st.blocks, i))
  }

  /** realloc's in-place path: the block is split only when it exceeds n by more than
      H + 4 bytes. */
  ghost function ResizeInPlace(st: Store, b: Addr, n: nat): (r: Store)
    requires Inv(st) && b in st.blocks && n % 4 == 0 && st.hdr[b].size >= n
    ensures Inv(r) && r.base == st.base && r.top == st.top &&
            r.stats.requested == st.stats.requested && r.stats.mallocs == st.stats.mallocs
  {
    if st.hdr[b].size > n + H + 4 then SplitSpec(st, b, n) else st
  }

  /** realloc's moving path after malloc answered m: on success the old block is freed. */
  ghost function Relocate(m: (Store, Option<Addr>), ptr: Option<Addr>): (r: (Store, Option<Addr>))
    requires Inv(m.0) && FreeArg(m.0, ptr)
    ensures r.1 == m.1 && r.0.stats.requested == m.0.stats.requested
  {
    if m.1.None? then m else (FreeSpec(m.0, ptr), m.1)
  }

  /** realloc(ptr, size): the new state and the returned payload address. */
  ghost function ReallocSpec(st: Store, p: Policy, ptr: Option<Addr>, size: nat, granted: bool): (r: (Store, Option<Addr>))
    requires Inv(st) && FreeArg(st, ptr) && size < U64
    ensures r.0.base == st.base
    ensures ptr.Some? && size == 0 ==> r.1.None?
  {
    if ptr.None? then MallocSpec(st, p, size, granted)
    else if size == 0 then (FreeSpec(st, ptr), None)
    else ResizeSpec(st, p, ptr, Align4(size), granted)
  }

  /** realloc(ptr, size) past its two early returns, with n = ALIGN4(size): count the
      request, then resize in place or move. The malloc(n) of the moving path is AllocSpec,
      since ALIGN4 leaves the aligned, non-zero n unchanged (Align4Aligned). */
  ghost function ResizeSpec(st: Store, p: Policy, ptr: Option<Addr>, n: nat, granted: bool): (r: (Store, Option<Addr>))
    requires Inv(st) && FreeArg(st, ptr) && ptr.Some? && n < U64 && n % 4 == 0
    ensures r.0.base == st.base
    ensures st.hdr[ptr.value - H].size >= n ==> r.1 == ptr && Inv(r.0) && r.0.top == st.top
  {
    var s1 := Count(st, n);
    var b := ptr.value - H;
    if st.hdr[b].size >= n then (ResizeInPlace(s1, b, n), ptr)
    else Relocate(AllocSpec(s1, p, n, granted), ptr)
  }

  /** Past its two early returns, realloc(ptr, size) is the resize to ALIGN4(size). */
  lemma ReallocResizes(st: Store, p: Policy, ptr: Option<Addr>, size: nat, granted: bool)
    requires Inv(st) && FreeArg(st, ptr) && size < U64 && ptr.Some? && size != 0
    ensures ResizeSpec(st, p, ptr, Align4(size), granted) == ReallocSpec(st, p, ptr, size, granted)
  {
  }

  /** A block already holding n bytes is kept: the same address comes back, and the state is
      the in-place resize of InPlaceOutcome after num_requested has counted n. */
  lemma ReallocInPlace(st: Store, p: Policy, ptr: Option<Addr>, n: nat, granted: bool)
    requires Inv(st) && FreeArg(st, ptr) && ptr.Some? && n < U64 && n % 4 == 0
    requires st.hdr[ptr.value - H].size >= n
    ensures (ResizeInPlace(Count(st, n), ptr.value - H, n), ptr) == ResizeSpec(st, p, ptr, n, granted)
  {
  }

  /** ResizeSpec when the block is too small: malloc(n) after counting n, then Relocate. */
  lemma ResizeMoved(st: Store, p: Policy, ptr: Option<Addr>, n: nat, granted: bool)
    requires Inv(st) && FreeArg(st, ptr) && ptr.Some? && n < U64 && n % 4 == 0
    requires st.hdr[ptr.value - H].size < n
    ensures Relocate(AllocSpec(Count(st, n), p, n, granted), ptr) == ResizeSpec(st, p, ptr, n, granted)
  {
  }

  /** The standalone coalesce(b): b absorbs a free successor that is not the head; unlike
      free's merges it lowers max_heap and leaves next_fit_ptr alone. */
  ghost function CoalesceSpec(st: Store, b: Addr): (r: Store)
    requires Inv(st) && b in st.blocks
    ensures r.base == st.base && r.top == st.top && r.heapList == st.heapList && r.cursor == st.cursor
    ensures r.stats.mallocs == st.stats.mallocs && r.stats.frees == st.stats.frees &&
            r.stats.reuses == st.stats.reuses && r.stats.grows == st.stats.grows &&
            r.stats.splits == st.stats.splits && r.stats.requested == st.stats.requested
    ensures r.stats.coalesces - st.stats.coalesces == st.stats.blocks - r.stats.blocks
    ensures st.stats.maxHeap - r.stats.maxHeap == H * (r.stats.coalesces - st.stats.coalesces)
    ensures r.stats.coalesces == st.stats.coalesces || r.stats.coalesces == st.stats.coalesces + 1
  {
    var nx := st.hdr[b].next;
    var i := IndexOf(st.blocks, b);
    if nx.Some? && nx != st.heapList && nx.value in st.hdr && st.hdr[nx.value].free then
      st.(hdr := Absorb(st.hdr, b, nx.value),
          blocks := Dropped(st.blocks, i),
          stats := st.stats.(coalesces := st.stats.coalesces + 1, blocks := st.stats.blocks - 1,
                             maxHeap := st.stats.maxHeap - H))
    else st
  }
}
