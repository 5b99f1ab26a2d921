/** What realloc does, stated on the spec functions of Engine. Most lemmas are about
    ResizeSpec, which is realloc past its early returns with n = ALIGN4(size). */
module ReallocProps {
  import opened Heap
  import opened Placement
  import opened Align
  import opened Engine
  import opened MallocProps

  /** realloc(NULL, size) is malloc(size); realloc(p, 0) frees p and returns null. */
  lemma ReallocDelegates(st: Store, p: Policy, ptr: Option<Addr>, size: nat, granted: bool)
    requires Inv(st) && FreeArg(st, ptr) && size < U64
    ensures ptr.None? ==> ReallocSpec(st, p, ptr, size, granted) == MallocSpec(st, p, size, granted)
    ensures ptr.Some? && size == 0 ==> ReallocSpec(st, p, ptr, size, granted) == (FreeSpec(st, ptr), None)
  {
  }

  /** realloc's in-place resize of b to n bytes: the break does not move and the invariant
      holds. The block is split only when it exceeds n by more than H + 4 bytes; otherwise
      the headers and the list are untouched. */
  lemma InPlaceOutcome(st: Store, b: Addr, n: nat)
    requires Inv(st) && b in st.blocks && n % 4 == 0 && st.hdr[b].size >= n
    ensures var r := ResizeInPlace(st, b, n);
      Inv(r) && r.top == st.top && b in r.hdr &&
      (st.hdr[b].size > n + H + 4 ==>
         r.hdr[b] == Header(n, Some(b + H + n), st.hdr[b].free) &&
         r.blocks == InsertAt(st.blocks, IndexOf(st.blocks, b) + 1, b + H + n)) &&
      (st.hdr[b].size <= n + H + 4 ==> r == st)
  {
    if st.hdr[b].size > n + H + 4 {
      SplitOutcome(st, b, n);
    }
  }

  /** The split thresholds differ: a block of exactly n + H + 4 bytes is split by malloc
      (MallocSplitsLargeBlock) but handed back whole by realloc. */
  lemma ReallocKeepsBoundaryBlock(st: Store, p: Policy, ptr: Option<Addr>, n: nat, granted: bool)
    requires Inv(st) && FreeArg(st, ptr) && ptr.Some? && n < U64 && n % 4 == 0
    requires st.hdr[ptr.value - H].size == n + H + 4
    ensures var r := ResizeSpec(st, p, ptr, n, granted);
      r.1 == ptr && r.0.hdr == st.hdr && r.0.blocks == st.blocks &&
      r.0.stats.splits == st.stats.splits
  {
  }

  /** The three sizes whose alignment wraps to 0 are served in place, as a resize to 0 bytes:
      by InPlaceOutcome the block is cut down to an empty payload whenever it holds more than
      H + 4 bytes. */
  lemma ReallocHugeShrinks(st: Store, p: Policy, ptr: Option<Addr>, size: nat, granted: bool)
    requires Inv(st) && FreeArg(st, ptr) && ptr.Some? && U64 - 4 < size < U64
    ensures (ResizeInPlace(Count(st, 0), ptr.value - H, 0), ptr) == ReallocSpec(st, p, ptr, size, granted)
  {
    Align4Zero(size);
    ReallocInPlace(st, p, ptr, 0, granted);
  }

  /** A block too small for n moves: realloc answers what malloc(n) answers. If malloc fails,
      realloc returns null and the headers, list and break are as before; if it succeeds, the
      old block is freed (under first, best and worst fit the answer is never the old pointer,
      by MallocAvoidsUsedBlocks, since the old block is in use). Either way num_requested
      counts n twice, once in realloc and again in malloc. */
  lemma ReallocMoves(st: Store, p: Policy, ptr: Option<Addr>, n: nat, granted: bool)
    requires Inv(st) && FreeArg(st, ptr) && ptr.Some? && n < U64 && n % 4 == 0
    requires st.hdr[ptr.value - H].size < n
    ensures AllocSpec(Count(st, n), p, n, granted).1 == ResizeSpec(st, p, ptr, n, granted).1
    ensures st.stats.requested + 2 * n == ResizeSpec(st, p, ptr, n, granted).0.stats.requested
    ensures AllocSpec(Count(st, n), p, n, granted).1.None? ==>
              (st.hdr, st.blocks, st.top) ==
              (ResizeSpec(st, p, ptr, n, granted).0.hdr, ResizeSpec(st, p, ptr, n, granted).0.blocks,
               ResizeSpec(st, p, ptr, n, granted).0.top)
    ensures AllocSpec(Count(st, n), p, n, granted).1.Some? ==>
              FreeSpec(AllocSpec(Count(st, n), p, n, granted).0, ptr) == ResizeSpec(st, p, ptr, n, granted).0
  {
  }

  /** Under next fit, realloc can return the very pointer it has just freed: when the cursor is
      the in-use block being resized and nothing fits, malloc hands that block back (after
      realloc has counted the request), and free then releases it. */
  lemma NextFitReallocReturnsFreedPointer(st: Store, ptr: Option<Addr>, n: nat, granted: bool)
    requires Inv(st) && FreeArg(st, ptr) && ptr.Some? && n < U64 && n % 4 == 0
    requires st.cursor == Some(ptr.value - H) && st.hdr[ptr.value - H].size < n
    requires forall j :: 0 <= j < |st.blocks| ==> !Fits(st.hdr[st.blocks[j]], n)
    ensures AllocSpec(Count(st, n), NextFit, n, granted).1 == ptr
    ensures (FreeSpec(AllocSpec(Count(st, n), NextFit, n, granted).0, ptr), ptr) ==
            ResizeSpec(st, NextFit, ptr, n, granted)
  {
    NextFitMissAfterCount(st, ptr, n, granted);
    ResizeMoved(st, NextFit, ptr, n, granted);
  }

  /** The malloc inside such a realloc misses under next fit and answers with the cursor,
      which is still the in-use block being resized. */
  lemma NextFitMissAfterCount(st: Store, ptr: Option<Addr>, n: nat, granted: bool)
    requires Inv(st) && FreeArg(st, ptr) && ptr.Some? && n % 4 == 0
    requires st.cursor == Some(ptr.value - H) && st.hdr[ptr.value - H].size < n
    requires forall j :: 0 <= j < |st.blocks| ==> !Fits(st.hdr[st.blocks[j]], n)
    ensures AllocSpec(Count(st, n), NextFit, n, granted).1 == ptr
  {
    NextFitMissReturnsCursor(Count(st, n), n, granted);
  }
}
