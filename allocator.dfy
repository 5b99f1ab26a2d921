/** The allocator of src/malloc.c as an object: its global variables are the fields of one
    Allocator, and each function of the file is a method that updates them in place. Every
    method is proved to produce the state its Engine counterpart describes. */
module Malloc {
  import opened Heap
  import opened Align
  import opened Placement
  import opened Engine
  import opened MallocProps

  class Allocator {
    /** The placement policy the build selects (FIT, BEST, WORST, NEXT or none). */
    const policy: Policy
    /** The program break before the first sbrk: where the heap starts. */
    const base: Addr
    /** Header memory: the struct _block at each address the allocator wrote one. */
    var hdr: map<Addr, Header>
    var heapList: Option<Addr>
    var nextFit: Option<Addr>
    /** The program break, as sbrk(0) reports it. */
    var heapTop: Addr
    var stats: Stats
    /** Payload memory, byte by byte. */
    var mem: Addr -> byte
    /** The list of block addresses in list order (the view the headers' links describe). */
    ghost var blocks: seq<Addr>

    ghost function State(): Store
      reads this
    {
      Store(base, hdr, blocks, heapList, nextFit, heapTop, stats)
    }

    ghost predicate Valid()
      reads this
    {
      Inv(State())
    }

    /** Process start: an empty heap at the initial break, all counters 0, and whatever the
        memory holds. */
    constructor (policy: Policy, base: Addr, mem: Addr -> byte)
      ensures this.policy == policy && this.mem == mem
      ensures State() == Initial(base) && Valid()
    {
      this.policy := policy;
      this.base := base;
      hdr := map[];
      heapList := None;
      nextFit := None;
      heapTop := base;
      stats := NoStats;
      this.mem := mem;
      blocks := [];
      InitialInv(base);
    }

    // -------------------------------------------------------------------------
    // findFreeBlock: one scan per policy, each walking the `next` links.

    /** First fit: the first free block of at least n bytes; *last is the block before it,
        or the tail when nothing fits. */
    method FirstFitScan(n: nat) returns (found: Option<Addr>, last: Option<Addr>)
      requires Valid()
      ensures found == AtIdx(blocks, FirstFitIn(List(State()), n, 0, |blocks|))
      ensures last == AtIdx(blocks, FirstFitLast(List(State()), n))
    {
      ghost var s := List(State());
      last := None;
      var curr := heapList;
      ghost var k := 0;
      while curr.Some? && !Fits(hdr[curr.value], n)
        invariant k <= |blocks| && curr == At(blocks, k)
        invariant forall j :: 0 <= j < k ==> !Fits(s[j], n)
        invariant last == (if k == 0 then None else Some(blocks[k - 1]))
        decreases |blocks| - k
      {
        assert Linked(hdr, blocks, heapTop, k);
        last := curr;
        curr := hdr[curr.value].next;
        k := k + 1;
      }
      found := curr;
    }

    /** Best fit: the free block of least size among those of at least n bytes, the first one
        on ties; *last is the tail. */
    method BestFitScan(n: nat) returns (found: Option<Addr>, last: Option<Addr>)
      requires Valid()
      ensures found == AtIdx(blocks, BestFitIndex(List(State()), n))
      ensures last == AtIdx(blocks, TailIdx(blocks))
    {
      ghost var s := List(State());
      last := None;
      var curr := heapList;
      var best: Option<Addr> := None;
      ghost var k := 0;
      while curr.Some?
        invariant k <= |blocks| && curr == At(blocks, k)
        invariant best == AtIdx(blocks, BestFitIndex(s[..k], n))
        invariant last == (if k == 0 then None else Some(blocks[k - 1]))
        decreases |blocks| - k
      {
        assert Linked(hdr, blocks, heapTop, k);
        BestFitStep(s, k, n);
        if Fits(hdr[curr.value], n) {
          if best.None? || hdr[curr.value].size < hdr[best.value].size {
            best := curr;
          }
        }
        last := curr;
        curr := hdr[curr.value].next;
        k := k + 1;
      }
      assert s[..k] == s;
      found := best;
    }

    /** Worst fit: the free block of greatest size among those of at least n bytes, the first
        one on ties; *last is the tail. */
    method WorstFitScan(n: nat) returns (found: Option<Addr>, last: Option<Addr>)
      requires Valid()
      ensures found == AtIdx(blocks, WorstFitIndex(List(State()), n))
      ensures last == AtIdx(blocks, TailIdx(blocks))
    {
      ghost var s := List(State());
      last := None;
      var curr := heapList;
      var worst: Option<Addr> := None;
      ghost var k := 0;
      while curr.Some?
        invariant k <= |blocks| && curr == At(blocks, k)
        invariant worst == AtIdx(blocks, WorstFitIndex(s[..k], n))
        invariant last == (if k == 0 then None else Some(blocks[k - 1]))
        decreases |blocks| - k
      {
        assert Linked(hdr, blocks, heapTop, k);
        WorstFitStep(s, k, n);
        if Fits(hdr[curr.value], n) {
          if worst.None? || hdr[curr.value].size > hdr[worst.value].size {
            worst := curr;
          }
        }
        last := curr;
        curr := hdr[curr.value].next;
        k := k + 1;
      }
      assert s[..k] == s;
      found := worst;
    }

    /** Next fit: a first scan from the block after next_fit_ptr to the end of the list, then,
        if it ran off the end, a second scan from the head that stops at the first fit or at
        next_fit_ptr itself. */
    method NextFitScan(n: nat) returns (found: Option<Addr>, last: Option<Addr>)
      requires Valid()
      ensures found == AtIdx(blocks, NextFitIndex(List(State()), n, CursorIndex(State())))
      ensures last == AtIdx(blocks, LastVisited(NextFit, List(State()), n, CursorIndex(State())))
    {
      found, last := ScanAfterCursor(n);
      if found.None? {
        found, last := ScanFromHead(n, last);
      }
    }

    /** Next fit's first scan: the first fit after next_fit_ptr (from the head if it is null). */
    method ScanAfterCursor(n: nat) returns (found: Option<Addr>, last: Option<Addr>)
      requires Valid()
      ensures found == AtIdx(blocks, FirstFitIn(List(State()), n, ScanStart(CursorIndex(State())), |blocks|))
      ensures last == AtIdx(blocks, Passed(ScanStart(CursorIndex(State())), FirstFitIn(List(State()), n, ScanStart(CursorIndex(State())), |blocks|), |blocks|))
    {
      ghost var s := List(State());
      ghost var c := CursorIndex(State());
      ghost var lo := ScanStart(c);
      last := None;
      var curr: Option<Addr>;
      if nextFit.None? {
        curr := heapList;
      } else {
        assert Linked(hdr, blocks, heapTop, c.value);
        curr := hdr[nextFit.value].next;
      }
      ghost var k := lo;
      while curr.Some? && !Fits(hdr[curr.value], n) && curr != nextFit
        invariant lo <= k <= |blocks| && curr == At(blocks, k)
        invariant forall j :: lo <= j < k ==> !Fits(s[j], n)
        invariant last == (if k == lo then None else Some(blocks[k - 1]))
        decreases |blocks| - k
      {
        assert Linked(hdr, blocks, heapTop, k);
        last := curr;
        curr := hdr[curr.value].next;
        k := k + 1;
      }
      if curr.Some? && c.Some? {
        Distinct(hdr, blocks, base, heapTop, k, c.value);
      }
      FirstFitAt(s, n, lo, k);
      found := curr;
    }

    /** Next fit's second scan, after the first ran off the end with *last = last1: from the
        head to the first fit, stopping at next_fit_ptr (when it is set). */
    method ScanFromHead(n: nat, last1: Option<Addr>) returns (found: Option<Addr>, last: Option<Addr>)
      requires Valid() && FirstFitIn(List(State()), n, ScanStart(CursorIndex(State())), |blocks|).None?
      ensures CursorIndex(State()).Some? ==>
        var j := WrapStop(List(State()), n, CursorIndex(State()).value);
        found == Some(blocks[j]) && last == (if j == 0 then last1 else Some(blocks[j - 1]))
      ensures CursorIndex(State()).None? ==>
        found == None && last == (if |blocks| == 0 then last1 else Some(blocks[|blocks| - 1]))
    {
      ghost var s := List(State());
      ghost var c := CursorIndex(State());
      last := last1;
      var curr := heapList;
      ghost var k := 0;
      while curr.Some? && curr != nextFit && !Fits(hdr[curr.value], n)
        invariant k <= |blocks| && curr == At(blocks, k)
        invariant c.Some? ==> k <= c.value
        invariant forall j :: 0 <= j < k ==> !Fits(s[j], n)
        invariant last == (if k == 0 then last1 else Some(blocks[k - 1]))
        decreases |blocks| - k
      {
        assert Linked(hdr, blocks, heapTop, k);
        last := curr;
        curr := hdr[curr.value].next;
        k := k + 1;
      }
      found := curr;
    }

    /** findFreeBlock(&last, n): the block the build's policy picks, with *last, and
        next_fit_ptr set to the block returned. Without a policy the head is returned. */
    method FindFreeBlock(n: nat) returns (found: Option<Addr>, last: Option<Addr>)
      modifies this
      requires Valid()
      ensures (State(), found, last) == Find(old(State()), policy, n)
      ensures Valid() && blocks == old(blocks)
      ensures mem == old(mem)
    {
      match policy {
        case FirstFit => found, last := FirstFitScan(n);
        case BestFit => found, last := BestFitScan(n);
        case WorstFit => found, last := WorstFitScan(n);
        case NextFit => found, last := NextFitScan(n);
        case NoPolicy => found, last := heapList, None;
      }
      nextFit := found;
    }

    /** splitBlock(b, n): a free remainder header is written n payload bytes into b. */
    method SplitBlock(b: Addr, n: nat) returns (r: Addr)
      modifies this
      requires Valid() && b in blocks && n % 4 == 0 && hdr[b].size >= n + H
      ensures State() == SplitSpec(old(State()), b, n) && r == b
      ensures mem == old(mem)
    {
      var newBlock := b + H + n;
      hdr := hdr[newBlock := Header(hdr[b].size - n - H, hdr[b].next, true)];
      hdr := hdr[b := hdr[b].(size := n, next := Some(newBlock))];
      stats := stats.(splits := stats.splits + 1, blocks := stats.blocks + 1,
                      maxHeap := stats.maxHeap + H);
      blocks := InsertAt(blocks, IndexOf(blocks, b) + 1, newBlock);
      r := b;
    }

    /** growHeap(last, n): sbrk extends the break by H + n bytes when `granted`; the new block
        is in use, ends the list and is linked after last. */
    method GrowHeap(last: Option<Addr>, n: nat, granted: bool) returns (r: Option<Addr>)
      modifies this
      requires Valid() && last == AtIdx(blocks, TailIdx(blocks)) && n % 4 == 0
      ensures (State(), r) == GrowSpec(old(State()), last, n, granted)
      ensures Valid() && (r.Some? ==> r.value in blocks)
      ensures mem == old(mem)
    {
      var curr := heapTop;
      if !granted {
        return None;
      }
      heapTop := heapTop + H + n;
      if heapList.None? {
        heapList := Some(curr);
      }
      if last.Some? {
        hdr := hdr[last.value := hdr[last.value].(next := Some(curr))];
      }
      hdr := hdr[curr := Header(n, None, false)];
      stats := stats.(grows := stats.grows + 1, blocks := stats.blocks + 1,
                      maxHeap := stats.maxHeap + n + H);
      blocks := blocks + [curr];
      r := Some(curr);
    }

    /** malloc(size). */
    method Malloc(size: nat, granted: bool) returns (r: Option<Addr>)
      modifies this
      requires Valid() && size < U64
      ensures (State(), r) == MallocSpec(old(State()), policy, size, granted)
      ensures mem == old(mem)
    {
      var n := Align4(size);
      if n == 0 {
        return None;
      }
      r := Alloc(n, granted);
    }

    /** malloc past the size checks, for an aligned, non-zero n: search, count the request,
        then reuse the found block or grow the heap. */
    method Alloc(n: nat, granted: bool) returns (r: Option<Addr>)
      modifies this
      requires Valid() && 0 < n && n % 4 == 0
      ensures (State(), r) == AllocSpec(old(State()), policy, n, granted)
      ensures mem == old(mem)
    {
      ghost var st := State();
      var next, last := FindFreeBlock(n);
      ghost var s1 := State();
      stats := stats.(requested := stats.requested + n);
      assert State() == Count(s1, n);
      if next.Some? {
        AllocFound(st, policy, n, granted);
        Reuse(next.value, n);
        var payload: Addr := next.value + H;
        r := Some(payload);
      } else {
        AllocMissed(st, policy, n, granted);
        r := Grow(last, n, granted);
      }
    }

    /** malloc's growth path: growHeap, then the epilogue on the new block. */
    method Grow(last: Option<Addr>, n: nat, granted: bool) returns (r: Option<Addr>)
      modifies this
      requires Valid() && last == AtIdx(blocks, TailIdx(blocks)) && n % 4 == 0
      ensures (State(), r) == GrowUsed(old(State()), last, n, granted)
      ensures mem == old(mem)
    {
      var next := GrowHeap(last, n, granted);
      if next.None? {
        return None;
      }
      var payload: Addr := next.value + H;
      MarkInUse(next.value);
      r := Some(payload);
    }

    /** malloc's use of a found block: split it when it holds at least n + H + 4 bytes, count
        the reuse, and hand it out. */
    method Reuse(b: Addr, n: nat)
      modifies this
      requires Valid() && b in blocks && n % 4 == 0
      ensures State() == ReuseSpec(old(State()), b, n)
      ensures mem == old(mem)
    {
      if hdr[b].size >= n + H + 4 {
        var _ := SplitBlock(b, n);
      }
      stats := stats.(reuses := stats.reuses + 1);
      MarkInUse(b);
    }

    /** malloc's epilogue: the block is marked in use and num_mallocs is incremented. */
    method MarkInUse(b: Addr)
      modifies this
      requires Valid() && b in blocks
      ensures State() == MarkUsed(old(State()), b)
      ensures mem == old(mem)
    {
      hdr := hdr[b := hdr[b].(free := false)];
      stats := stats.(mallocs := stats.mallocs + 1);
    }

    /** free(ptr): mark the block free, find the block before its predecessor with the
        predecessor scan, merge backward into that block if it is free, then merge the
        current block with a free successor. */
    method Free(ptr: Option<Addr>)
      modifies this
      requires Valid() && FreeArg(State(), ptr)
      ensures State() == FreeSpec(old(State()), ptr)
      ensures mem == old(mem)
    {
      if ptr.None? {
        return;
      }
      ghost var st := State();
      ghost var i := Released(st, ptr);
      var curr := ptr.value - H;
      assert Linked(hdr, blocks, heapTop, i);
      hdr := hdr[curr := hdr[curr].(free := true)];
      stats := stats.(frees := stats.frees + 1);
      assert State() == Release(st, curr);
      var last := PredecessorScan(curr);
      curr := BackwardStep(st, ptr, last);
      Forward(curr, if BackwardFires(st, ptr) then st.blocks else Dropped(st.blocks, i));
    }

    /** free's backward step, after block c = ptr - H was marked free in st: if the block the
        predecessor scan left in last is free, it absorbs c and the step answers it; otherwise
        nothing changes and the step answers c. */
    method BackwardStep(ghost st: Store, ptr: Option<Addr>, last: Option<Addr>) returns (curr: Addr)
      modifies this
      requires Inv(st) && FreeArg(st, ptr) && ptr.Some?
      requires State() == Release(st, ptr.value - H)
      requires last == AtIdx(st.blocks, BackwardIndex(|st.blocks|, Released(st, ptr)))
      ensures BackwardFires(st, ptr) ==>
                curr == st.blocks[BackwardIndex(|st.blocks|, Released(st, ptr)).value] &&
                State() == Merge(old(State()), curr, ptr.value - H, st.blocks)
      ensures !BackwardFires(st, ptr) ==> curr == ptr.value - H && State() == old(State())
      ensures curr in hdr && hdr[curr].next == old(hdr[ptr.value - H].next)
      ensures nextFit.Some? ==> nextFit.value in hdr
      ensures mem == old(mem)
    {
      curr := ptr.value - H;
      if last.Some? && hdr[last.value].free {
        MergeInto(last.value, curr, st.blocks);
        curr := last.value;
      }
    }

    /** free's forward step: the current block absorbs its successor if that is free. */
    method Forward(curr: Addr, ghost blocks': seq<Addr>)
      modifies this
      requires curr in hdr && (nextFit.Some? ==> nextFit.value in hdr)
      requires hdr[curr].next.Some? ==> hdr[curr].next.value in hdr
      ensures State() == ForwardMerge(old(State()), curr, blocks')
      ensures mem == old(mem)
    {
      var nx := hdr[curr].next;
      if nx.Some? && hdr[nx.value].free {
        MergeInto(curr, nx.value, blocks');
      }
    }

    /** One merge of free: block a absorbs block b (a's size grows by b's header and payload
        and a takes over b's link); num_coalesces +1, num_blocks -1; next_fit_ptr moves to a
        if the header it points at says free. `blocks'` is the list view afterwards. */
    method MergeInto(a: Addr, b: Addr, ghost blocks': seq<Addr>)
      modifies this
      requires a in hdr && b in hdr && (nextFit.Some? ==> nextFit.value in hdr)
      ensures State() == Merge(old(State()), a, b, blocks')
      ensures nextFit.Some? ==> nextFit.value in hdr
      ensures mem == old(mem)
    {
      hdr := hdr[a := hdr[a].(size := hdr[a].size + H + hdr[b].size, next := hdr[b].next)];
      stats := stats.(coalesces := stats.coalesces + 1, blocks := stats.blocks - 1);
      if nextFit.Some? && hdr[nextFit.value].free {
        nextFit := Some(a);
      }
      blocks := blocks';
    }

    /** free's predecessor scan from the head: stops when the next block is curr, or runs off
        the end; answers the block visited before the stop (*last in the source). For the
        list's i-th block that is block i - 2 (none for i = 1), and the tail for the head. */
    method PredecessorScan(curr: Addr) returns (last: Option<Addr>)
      requires Valid() && curr in blocks
      ensures last == AtIdx(blocks, BackwardIndex(|blocks|, IndexOf(blocks, curr)))
    {
      ghost var i := IndexOf(blocks, curr);
      var prev := heapList;
      last := None;
      ghost var k := 0;
      while prev.Some? && hdr[prev.value].next != Some(curr)
        invariant k <= |blocks| && prev == At(blocks, k)
        invariant last == (if k == 0 then None else Some(blocks[k - 1]))
        invariant i >= 1 ==> k <= i - 1
        decreases |blocks| - k
      {
        assert Linked(hdr, blocks, heapTop, k);
        last := prev;
        prev := hdr[prev.value].next;
        k := k + 1;
      }
      if prev.Some? {
        assert Linked(hdr, blocks, heapTop, k);
        if k + 1 != i {
          Distinct(hdr, blocks, base, heapTop, k + 1, i);
        }
      }
    }

    /** coalesce(b): b absorbs a free successor that is not the head. */
    method Coalesce(b: Addr) returns (r: Addr)
      modifies this
      requires Valid() && b in blocks
      ensures State() == CoalesceSpec(old(State()), b) && r == b
      ensures mem == old(mem)
    {
      assert Linked(hdr, blocks, heapTop, IndexOf(blocks, b));
      var nextBlock := hdr[b].next;
      if nextBlock.Some? && nextBlock != heapList && hdr[nextBlock.value].free {
        hdr := hdr[b := hdr[b].(size := hdr[b].size + H + hdr[nextBlock.value].size,
                                next := hdr[nextBlock.value].next)];
        stats := stats.(coalesces := stats.coalesces + 1, blocks := stats.blocks - 1,
                        maxHeap := stats.maxHeap - H);
        blocks := Dropped(blocks, IndexOf(blocks, b));
      }
      r := b;
    }

    /** realloc(ptr, size). The contents of a moved block are copied: the old block's size
        in bytes, from the old payload to the new one. */
    method Realloc(ptr: Option<Addr>, size: nat, granted: bool) returns (r: Option<Addr>)
      modifies this
      requires Valid() && FreeArg(State(), ptr) && size < U64
      ensures (State(), r) == ReallocSpec(old(State()), policy, ptr, size, granted)
      ensures mem == (if ptr.Some? && size != 0 && old(hdr[ptr.value - H].size) < Align4(size) && r.Some?
                      then MemCopy(old(mem), r.value, ptr.value, old(hdr[ptr.value - H].size))
                      else old(mem))
    {
      if ptr.None? {
        r := Malloc(size, granted);
      } else if size == 0 {
        Free(ptr);
        r := None;
      } else {
        ReallocResizes(State(), policy, ptr, size, granted);
        r := Resize(ptr, Align4(size), granted);
      }
    }

    /** realloc past its two early returns, with n = ALIGN4(size). */
    method Resize(ptr: Option<Addr>, n: nat, granted: bool) returns (r: Option<Addr>)
      modifies this
      requires Valid() && FreeArg(State(), ptr) && ptr.Some? && n < U64 && n % 4 == 0
      ensures (State(), r) == ResizeSpec(old(State()), policy, ptr, n, granted)
      ensures mem == (if old(hdr[ptr.value - H].size) < n && r.Some?
                      then MemCopy(old(mem), r.value, ptr.value, old(hdr[ptr.value - H].size))
                      else old(mem))
    {
      ghost var st := State();
      stats := stats.(requested := stats.requested + n);
      var curr := ptr.value - H;
      if hdr[curr].size >= n {
        ReallocInPlace(st, policy, ptr, n, granted);
        ResizeHere(curr, n);
        return ptr;
      }
      ResizeMoved(st, policy, ptr, n, granted);
      r := Move(ptr, n, granted);
    }

    /** realloc's in-place path: the block is split only when it exceeds n by more than
        H + 4 bytes. */
    method ResizeHere(b: Addr, n: nat)
      modifies this
      requires Valid() && b in blocks && n % 4 == 0 && hdr[b].size >= n
      ensures State() == ResizeInPlace(old(State()), b, n)
      ensures mem == old(mem)
    {
      if hdr[b].size > n + H + 4 {
        var _ := SplitBlock(b, n);
      }
    }

    /** realloc's moving path: malloc(n), then on success memcpy of the old block's size and
        free of the old block. */
    method Move(ptr: Option<Addr>, n: nat, granted: bool) returns (r: Option<Addr>)
      modifies this
      requires Valid() && FreeArg(State(), ptr) && ptr.Some? && n < U64 && n % 4 == 0
      requires hdr[ptr.value - H].size < n
      ensures (State(), r) == Relocate(AllocSpec(old(State()), policy, n, granted), ptr)
      ensures mem == (if r.Some?
                      then MemCopy(old(mem), r.value, ptr.value, old(hdr[ptr.value - H].size))
                      else old(mem))
    {
      ghost var st := State();
      var curr := ptr.value - H;
      MallocKeepsSmallerBlocks(st, policy, n, granted, curr);
      Align4Aligned(n);
      var newPtr := Malloc(n, granted);
      if newPtr.Some? {
        mem := MemCopy(mem, newPtr.value, ptr.value, hdr[curr].size);
        Free(ptr);
      }
      r := newPtr;
    }

    /** calloc(num, size): malloc of num * size, computed in size_t (modulo 2^64, with no
        overflow check), then memset of that many bytes to 0. */
    method Calloc(num: nat, size: nat, granted: bool) returns (r: Option<Addr>)
      modifies this
      requires Valid() && num < U64 && size < U64
      ensures (State(), r) == MallocSpec(old(State()), policy, (num * size) % U64, granted)
      ensures mem == (if r.Some? then MemSet(old(mem), r.value, (num * size) % U64, 0) else old(mem))
    {
      var totalSize := (num * size) % U64;
      r := Malloc(totalSize, granted);
      if r.Some? {
        mem := MemSet(mem, r.value, totalSize, 0);
      }
    }
  }

  /** memcpy(dst, src, k) on payload memory: k bytes read from src onwards land at dst onwards. */
  function MemCopy(m: Addr -> byte, dst: Addr, src: Addr, k: nat): (r: Addr -> byte)
    ensures forall a: Addr :: dst <= a < dst + k ==> r(a) == m(src + (a - dst))
    ensures forall a: Addr :: !(dst <= a < dst + k) ==> r(a) == m(a)
  {
    (a: Addr) => if dst <= a < dst + k then m(src + (a - dst)) else m(a)
  }

  /** memset(dst, v, k) on payload memory. */
  function MemSet(m: Addr -> byte, dst: Addr, k: nat, v: byte): (r: Addr -> byte)
    ensures forall a: Addr :: dst <= a < dst + k ==> r(a) == v
    ensures forall a: Addr :: !(dst <= a < dst + k) ==> r(a) == m(a)
  {
    (a: Addr) => if dst <= a < dst + k then v else m(a)
  }
}
