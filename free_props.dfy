/** What free does, as coded: the forward merge keeps the invariant; the backward step finds the
    wrong block and, when it fires, breaks the list in the three ways proved here. */
module FreeProps {
  import opened Heap
  import opened Placement
  import opened Engine

  /** free(NULL) changes nothing. */
  lemma FreeNull(st: Store)
    requires Inv(st)
    ensures FreeSpec(st, None) == st
  {
  }

  /** free's predecessor scan stops on the predecessor's predecessor: null for the head's
      successor, the tail for the head. */
  lemma BackwardTarget(m: nat, i: nat)
    requires i < m
    ensures i >= 2 ==> BackwardIndex(m, i) == Some(i - 2)
    ensures i == 1 ==> BackwardIndex(m, i).None?
    ensures i == 0 ==> BackwardIndex(m, i) == Some(m - 1)
  {
  }

  /** free's forward step keeps the invariant: block i absorbs its successor only when that
      is free, and then the cursor, if on the absorbed block, is moved off it (the absorbed
      header still says free). */
  lemma ForwardMergeInv(st: Store, i: nat)
    requires Inv(st) && i < |st.blocks|
    ensures Inv(ForwardMerge(st, st.blocks[i], Dropped(st.blocks, i)))
  {
    var c := st.blocks[i];
    assert Linked(st.hdr, st.blocks, st.top, i);
    if i + 1 < |st.blocks| && st.hdr[st.blocks[i + 1]].free {
      AbsorbTiles(st.hdr, st.blocks, st.base, st.top, i);
      var b' := RemoveAt(st.blocks, i + 1);
      var h := Absorb(st.hdr, c, st.blocks[i + 1]);
      Distinct(st.hdr, st.blocks, st.base, st.top, i, i + 1);
      assert b'[i] == c;
      if st.cursor.Some? && !h[st.cursor.value].free {
        var k := IndexOf(st.blocks, st.cursor.value);
        assert k != i + 1;
        if k < i + 1 { assert b'[k] == st.cursor.value; } else { assert b'[k - 1] == st.cursor.value; }
      }
    }
  }

  /** When the backward step does not fire, free keeps the invariant: the released block is free
      and, if its successor was free, has absorbed it. */
  lemma FreePreservesInv(st: Store, ptr: Option<Addr>)
    requires Inv(st) && FreeArg(st, ptr)
    requires !BackwardFires(st, ptr)
    ensures Inv(FreeSpec(st, ptr))
  {
    if ptr.Some? {
      var c := ptr.value - H;
      ForwardMergeInv(Release(st, c), Released(st, ptr));
    }
  }

  /** The counters and the released block after a free whose backward step does not fire: the
      block is free, num_frees +1, max_heap unchanged, and one merge at most, with num_coalesces
      and num_blocks moving together. */
  lemma FreeOutcome(st: Store, ptr: Option<Addr>)
    requires Inv(st) && FreeArg(st, ptr) && ptr.Some?
    requires !BackwardFires(st, ptr)
    ensures var r := FreeSpec(st, ptr); var c := ptr.value - H;
      c in r.blocks && r.hdr[c].free &&
      r.stats.frees == st.stats.frees + 1 &&
      r.stats.maxHeap == st.stats.maxHeap &&
      r.stats.mallocs == st.stats.mallocs && r.stats.requested == st.stats.requested &&
      r.top == st.top && r.heapList == st.heapList &&
      ((r.stats.coalesces == st.stats.coalesces && r.stats.blocks == st.stats.blocks && r.blocks == st.blocks) ||
       (r.stats.coalesces == st.stats.coalesces + 1 && r.stats.blocks == st.stats.blocks - 1))
  {
    FreePreservesInv(st, ptr);
    var c := ptr.value - H;
    var i := IndexOf(st.blocks, c);
    assert Linked(st.hdr, st.blocks, st.top, i);
    if i + 1 < |st.blocks| {
      assert RemoveAt(st.blocks, i + 1)[i] == c;
    }
  }

  /** The forward merge as coded: when the released block's successor is free, the block
      grows by one header plus the successor's payload and links past it. No other listed
      header is written: the absorbed one is left in memory as it was. */
  lemma FreeMergesFreeSuccessor(st: Store, ptr: Option<Addr>)
    requires Inv(st) && FreeArg(st, ptr) && ptr.Some?
    requires !BackwardFires(st, ptr)
    requires var i := IndexOf(st.blocks, ptr.value - H);
      i + 1 < |st.blocks| && st.hdr[st.blocks[i + 1]].free
    ensures var r := FreeSpec(st, ptr); var c := ptr.value - H; var i := IndexOf(st.blocks, c);
      r.hdr[c] == Header(st.hdr[c].size + H + st.hdr[st.blocks[i + 1]].size, st.hdr[st.blocks[i + 1]].next, true) &&
      r.blocks == RemoveAt(st.blocks, i + 1) &&
      (forall a :: a in st.blocks && a != c ==> a in r.hdr && r.hdr[a] == st.hdr[a]) &&
      r.stats.coalesces == st.stats.coalesces + 1
  {
    var c := ptr.value - H;
    var i := IndexOf(st.blocks, c);
    assert Linked(st.hdr, st.blocks, st.top, i);
    Distinct(st.hdr, st.blocks, st.base, st.top, i, i + 1);
  }

  /** The cursor repair tests the flag, not the block: a cursor on any free block, even one the
      merge did not touch, is moved to the surviving block. */
  lemma RepairMovesAnyFreeCursor(st: Store, ptr: Option<Addr>)
    requires Inv(st) && FreeArg(st, ptr) && ptr.Some?
    requires !BackwardFires(st, ptr)
    requires var i := IndexOf(st.blocks, ptr.value - H);
      i + 1 < |st.blocks| && st.hdr[st.blocks[i + 1]].free
    requires st.cursor.Some? && st.hdr[st.cursor.value].free
    ensures FreeSpec(st, ptr).cursor == Some(ptr.value - H)
  {
    var c := ptr.value - H;
    var i := IndexOf(st.blocks, c);
    assert Linked(st.hdr, st.blocks, st.top, i);
    Distinct(st.hdr, st.blocks, st.base, st.top, i, i + 1);
  }

  /** A free that merges nothing only sets the free flag and counts the free. */
  lemma FreeWithoutMerge(st: Store, ptr: Option<Addr>)
    requires Inv(st) && FreeArg(st, ptr) && ptr.Some?
    requires !BackwardFires(st, ptr)
    requires var i := IndexOf(st.blocks, ptr.value - H);
      i + 1 == |st.blocks| || !st.hdr[st.blocks[i + 1]].free
    ensures FreeSpec(st, ptr) ==
      st.(hdr := SetFree(st.hdr, ptr.value - H, true), stats := st.stats.(frees := st.stats.frees + 1))
  {
    var c := ptr.value - H;
    var i := IndexOf(st.blocks, c);
    assert Linked(st.hdr, st.blocks, st.top, i);
    if i + 1 < |st.blocks| {
      Distinct(st.hdr, st.blocks, st.base, st.top, i, i + 1);
    }
  }

  /** The backward step of free for block i does not fire when the block the predecessor scan
      leaves in *last* is a different block that is not free. */
  lemma NoBackward(st: Store, i: nat)
    requires Inv(st) && i < |st.blocks|
    requires var l := BackwardIndex(|st.blocks|, i);
      l.Some? ==> l.value != i && !st.hdr[st.blocks[l.value]].free
    ensures FreeArg(st, Some(st.blocks[i] + H)) && !BackwardFires(st, Some(st.blocks[i] + H))
  {
    IndexOfListed(st.hdr, st.blocks, st.base, st.top, i);
    var l := BackwardIndex(|st.blocks|, i);
    if l.Some? { Distinct(st.hdr, st.blocks, st.base, st.top, l.value, i); }
  }

  /** Releasing block i when its successor is already free merges the two, provided the
      backward step does not fire. */
  lemma ReleaseBeforeFreeSuccessor(st: Store, i: nat)
    requires Inv(st) && i + 1 < |st.blocks| && st.hdr[st.blocks[i + 1]].free
    requires var l := BackwardIndex(|st.blocks|, i);
      l.Some? ==> l.value != i && !st.hdr[st.blocks[l.value]].free
    ensures FreeArg(st, Some(st.blocks[i] + H))
    ensures var r := FreeSpec(st, Some(st.blocks[i] + H));
      Inv(r) &&
      r.hdr[st.blocks[i]] == Header(st.hdr[st.blocks[i]].size + H + st.hdr[st.blocks[i + 1]].size,
                                    st.hdr[st.blocks[i + 1]].next, true) &&
      r.blocks == RemoveAt(st.blocks, i + 1)
  {
    var ptr := Some(st.blocks[i] + H);
    NoBackward(st, i);
    IndexOfListed(st.hdr, st.blocks, st.base, st.top, i);
    assert IndexOf(st.blocks, ptr.value - H) == i;
    FreeMergesFreeSuccessor(st, ptr);
    FreePreservesInv(st, ptr);
  }

  /** Releasing the upper block i + 1 of an in-use pair only marks it free when the blocks its
      two merge steps look at, i + 2 and (through the predecessor scan) i - 1, are not free;
      the lower block i then meets the conditions for a forward merge. */
  lemma ReleaseUpper(st: Store, i: nat)
    requires Inv(st) && i + 1 < |st.blocks|
    requires !st.hdr[st.blocks[i]].free && !st.hdr[st.blocks[i + 1]].free
    requires i + 2 == |st.blocks| || !st.hdr[st.blocks[i + 2]].free
    requires i >= 1 ==> !st.hdr[st.blocks[i - 1]].free
    ensures FreeArg(st, Some(st.blocks[i + 1] + H))
    ensures var st1 := FreeSpec(st, Some(st.blocks[i + 1] + H));
      Inv(st1) && st1.blocks == st.blocks && st1.hdr == SetFree(st.hdr, st.blocks[i + 1], true)
  {
    var m := |st.blocks|;
    Distinct(st.hdr, st.blocks, st.base, st.top, i, i + 1);
    IndexOfListed(st.hdr, st.blocks, st.base, st.top, i + 1);
    NoBackward(st, i + 1);
    FreeWithoutMerge(st, Some(st.blocks[i + 1] + H));
    FreePreservesInv(st, Some(st.blocks[i + 1] + H));
  }

  /** After ReleaseUpper, the backward step for block i does not fire: the block the
      predecessor scan leaves in *last* is still in use. */
  lemma LowerHasNoBackward(st: Store, h1: map<Addr, Header>, i: nat)
    requires Inv(st) && i + 1 < |st.blocks|
    requires h1 == SetFree(st.hdr, st.blocks[i + 1], true)
    requires i == 0 ==> i + 2 < |st.blocks| && !st.hdr[st.blocks[|st.blocks| - 1]].free
    requires i >= 2 ==> !st.hdr[st.blocks[i - 2]].free
    ensures var l := BackwardIndex(|st.blocks|, i);
      l.Some? ==> l.value != i && !h1[st.blocks[l.value]].free
  {
    var m := |st.blocks|;
    if i == 0 {
      Distinct(st.hdr, st.blocks, st.base, st.top, m - 1, i + 1);
    } else if i >= 2 {
      Distinct(st.hdr, st.blocks, st.base, st.top, i - 2, i + 1);
    }
  }

  /** Coalesce closure when the upper of two adjacent in-use blocks is released first. Given
      the state st1 that releasing the upper block i + 1 leaves (ReleaseUpper), releasing the
      lower block i merges forward, leaving one free block whose payload is both payloads plus
      one header. The conditions keep the backward step from firing: the block two below i,
      and for the head the tail, are not free. */
  lemma UpperThenLowerCoalesce(st: Store, i: nat, st1: Store)
    requires Inv(st) && i + 1 < |st.blocks|
    requires i == 0 ==> i + 2 < |st.blocks| && !st.hdr[st.blocks[|st.blocks| - 1]].free
    requires i >= 2 ==> !st.hdr[st.blocks[i - 2]].free
    requires Inv(st1) && st1.blocks == st.blocks && st1.hdr == SetFree(st.hdr, st.blocks[i + 1], true)
    ensures FreeArg(st1, Some(st.blocks[i] + H))
    ensures var st2 := FreeSpec(st1, Some(st.blocks[i] + H));
      Inv(st2) && st2.blocks == RemoveAt(st.blocks, i + 1) && st2.blocks[i] == st.blocks[i] &&
      st2.hdr[st2.blocks[i]].free &&
      st2.hdr[st2.blocks[i]].size == st.hdr[st.blocks[i]].size + H + st.hdr[st.blocks[i + 1]].size
  {
    LowerHasNoBackward(st, st1.hdr, i);
    Distinct(st.hdr, st.blocks, st.base, st.top, i, i + 1);
    ReleaseBeforeFreeSuccessor(st1, i);
  }

  /** Releasing block j when neither the block the predecessor scan leaves in *last* nor the
      successor is free only marks it free and counts the free. */
  lemma ReleaseAlone(st: Store, j: nat)
    requires Inv(st) && j < |st.blocks|
    requires var l := BackwardIndex(|st.blocks|, j);
      l.Some? ==> l.value != j && !st.hdr[st.blocks[l.value]].free
    requires j + 1 == |st.blocks| || !st.hdr[st.blocks[j + 1]].free
    ensures FreeArg(st, Some(st.blocks[j] + H))
    ensures var r := FreeSpec(st, Some(st.blocks[j] + H));
      r == st.(hdr := SetFree(st.hdr, st.blocks[j], true), stats := st.stats.(frees := st.stats.frees + 1)) &&
      Inv(r)
  {
    NoBackward(st, j);
    IndexOfListed(st.hdr, st.blocks, st.base, st.top, j);
    FreeWithoutMerge(st, Some(st.blocks[j] + H));
    FreePreservesInv(st, Some(st.blocks[j] + H));
  }

  /** Coalesce closure does not hold when the lower of two adjacent in-use blocks is released
      first. Given the state st1 that releasing the lower block i alone leaves (ReleaseAlone),
      releasing the upper block does not merge: its predecessor scan skips the lower block,
      so the two stay separate free blocks and no merge is counted. */
  lemma LowerThenUpperStaysSplit(st: Store, i: nat, st1: Store)
    requires Inv(st) && i + 1 < |st.blocks|
    requires i + 2 == |st.blocks| || !st.hdr[st.blocks[i + 2]].free
    requires i >= 1 ==> !st.hdr[st.blocks[i - 1]].free
    requires Inv(st1) && st1.blocks == st.blocks && st1.hdr == SetFree(st.hdr, st.blocks[i], true)
    requires st1.stats.coalesces == st.stats.coalesces
    ensures FreeArg(st1, Some(st1.blocks[i + 1] + H))
    ensures var st2 := FreeSpec(st1, Some(st1.blocks[i + 1] + H));
      Inv(st2) && st2.blocks == st.blocks &&
      st2.hdr[st2.blocks[i]].free && st2.hdr[st2.blocks[i + 1]].free &&
      st2.stats.coalesces == st.stats.coalesces
  {
    LowerLeavesUpperAlone(st, st1, i);
    ReleaseAlone(st1, i + 1);
    Distinct(st.hdr, st.blocks, st.base, st.top, i, i + 1);
    assert SetFree(st1.hdr, st1.blocks[i + 1], true)[st.blocks[i]] == st1.hdr[st.blocks[i]];
  }

  /** After the lower block i alone was released, the upper block i + 1 meets the conditions
      of ReleaseAlone. */
  lemma LowerLeavesUpperAlone(st: Store, st1: Store, i: nat)
    requires Inv(st) && i + 1 < |st.blocks|
    requires st1.blocks == st.blocks && st1.hdr == SetFree(st.hdr, st.blocks[i], true)
    requires i + 2 == |st.blocks| || !st.hdr[st.blocks[i + 2]].free
    requires i >= 1 ==> !st.hdr[st.blocks[i - 1]].free
    ensures var l := BackwardIndex(|st1.blocks|, i + 1);
      l.Some? ==> l.value != i + 1 && !st1.hdr[st1.blocks[l.value]].free
    ensures i + 2 == |st1.blocks| || !st1.hdr[st1.blocks[i + 2]].free
  {
    if i >= 1 { Distinct(st.hdr, st.blocks, st.base, st.top, i - 1, i); }
    if i + 2 < |st.blocks| { Distinct(st.hdr, st.blocks, st.base, st.top, i, i + 2); }
  }

  // ---------------------------------------------------------------------------
  // The backward step when it fires.

  /** For a block two or more places down the list, a free predecessor's predecessor absorbs
      the released block: it now links past the real predecessor, and its payload, grown by
      one header plus the released payload, covers the real predecessor's header while a gap
      is left before the next block (or the break). num_blocks drops by one. */
  lemma FreeLosesPredecessor(st: Store, i: nat)
    requires Inv(st) && 2 <= i < |st.blocks|
    requires st.hdr[st.blocks[i - 2]].free
    requires i + 1 == |st.blocks| || !st.hdr[st.blocks[i + 1]].free
    ensures FreeArg(st, Some(st.blocks[i] + H)) && BackwardFires(st, Some(st.blocks[i] + H))
    ensures var r := FreeSpec(st, Some(st.blocks[i] + H));
      var a, p := st.blocks[i - 2], st.blocks[i - 1];
      a in r.hdr && p in r.hdr &&
      r.hdr[a] == Header(st.hdr[a].size + H + st.hdr[st.blocks[i]].size, At(st.blocks, i + 1), true) &&
      r.hdr[p] == st.hdr[p] &&
      a < p < End(a, r.hdr[a]) &&
      End(a, r.hdr[a]) < (if i + 1 < |st.blocks| then st.blocks[i + 1] else st.top) &&
      r.stats.coalesces == st.stats.coalesces + 1 && r.stats.blocks == st.stats.blocks - 1
  {
    BackwardMergeState(st, i);
    assert Linked(st.hdr, st.blocks, st.top, i - 2);
    assert Linked(st.hdr, st.blocks, st.top, i - 1);
    assert Linked(st.hdr, st.blocks, st.top, i);
    Distinct(st.hdr, st.blocks, st.base, st.top, i - 2, i - 1);
    Distinct(st.hdr, st.blocks, st.base, st.top, i - 1, i);
  }

  /** The headers and merge counters after the backward step of FreeLosesPredecessor: the
      released block is marked free and absorbed by the block two below it, and the forward
      step finds nothing to merge. */
  lemma BackwardMergeState(st: Store, i: nat)
    requires Inv(st) && 2 <= i < |st.blocks|
    requires st.hdr[st.blocks[i - 2]].free
    requires i + 1 == |st.blocks| || !st.hdr[st.blocks[i + 1]].free
    ensures FreeArg(st, Some(st.blocks[i] + H)) && BackwardFires(st, Some(st.blocks[i] + H))
    ensures var r := FreeSpec(st, Some(st.blocks[i] + H)); var c, a := st.blocks[i], st.blocks[i - 2];
      c in st.hdr && a in st.hdr &&
      r.hdr == Absorb(SetFree(st.hdr, c, true), a, c) &&
      r.stats.coalesces == st.stats.coalesces + 1 && r.stats.blocks == st.stats.blocks - 1
  {
    var m := |st.blocks|;
    assert Linked(st.hdr, st.blocks, st.top, i);
    IndexOfListed(st.hdr, st.blocks, st.base, st.top, i);
    Distinct(st.hdr, st.blocks, st.base, st.top, i - 2, i);
    if i + 1 < m {
      Distinct(st.hdr, st.blocks, st.base, st.top, i - 2, i + 1);
      Distinct(st.hdr, st.blocks, st.base, st.top, i, i + 1);
    }
    var c, a := st.blocks[i], st.blocks[i - 2];
    assert BackwardIndex(m, i) == Some(i - 2);
  }

  /** Releasing the only block: the scan leaves the block itself in *last*, and the block
      absorbs itself. Its payload becomes twice the old one plus a header, running H + size
      bytes past the break, and num_blocks drops to 0 while the block is still listed. */
  lemma FreeSoleBlockOverruns(st: Store)
    requires Inv(st) && |st.blocks| == 1
    ensures FreeArg(st, Some(st.base + H)) && BackwardFires(st, Some(st.base + H))
    ensures var r := FreeSpec(st, Some(st.base + H)); var s := st.hdr[st.base].size;
      st.base in r.hdr &&
      r.hdr[st.base] == Header(2 * s + H, None, true) &&
      End(st.base, r.hdr[st.base]) == st.top + H + s &&
      r.blocks == st.blocks && r.stats.blocks == 0
  {
    assert Linked(st.hdr, st.blocks, st.top, 0);
  }

  /** Every listed header links to a listed block. */
  ghost predicate Closed(hdr: map<Addr, Header>, blocks: seq<Addr>) {
    forall j :: 0 <= j < |blocks| ==>
      blocks[j] in hdr && hdr[blocks[j]].next.Some? && hdr[blocks[j]].next.value in blocks
  }

  /** A walk that starts on a listed block of a closed list never reaches null. */
  lemma {:induction false} ClosedWalk(hdr: map<Addr, Header>, blocks: seq<Addr>, p: Addr, k: nat)
    requires Closed(hdr, blocks) && p in blocks
    ensures Follow(hdr, Some(p), k).Some? && Follow(hdr, Some(p), k).value in blocks
    decreases k
  {
    if k > 0 {
      var j :| 0 <= j < |blocks| && blocks[j] == p;
      ClosedWalk(hdr, blocks, hdr[p].next.value, k - 1);
    }
  }

  /** Releasing the head while the tail is free: the scan runs off the end and leaves the
      tail in *last*, which absorbs the head and takes over its link back into the list. The
      links then form a cycle: a walk from heapList never reaches null. */
  lemma FreeHeadCycles(st: Store)
    requires Inv(st) && |st.blocks| >= 2 && st.hdr[st.blocks[|st.blocks| - 1]].free
    ensures FreeArg(st, Some(st.base + H)) && BackwardFires(st, Some(st.base + H))
    ensures var r := FreeSpec(st, Some(st.base + H));
      r.heapList == Some(st.base) && forall k :: Follow(r.hdr, r.heapList, k).Some?
  {
    FreeHeadCloses(st);
    var r := FreeSpec(st, Some(st.base + H));
    forall k: nat ensures Follow(r.hdr, r.heapList, k).Some? {
      ClosedWalk(r.hdr, st.blocks, st.base, k);
    }
  }

  /** After the head's release merges it into the free tail, every listed header links to a
      listed block: the tail now carries the head's link to the second block. */
  lemma FreeHeadCloses(st: Store)
    requires Inv(st) && |st.blocks| >= 2 && st.hdr[st.blocks[|st.blocks| - 1]].free
    ensures FreeArg(st, Some(st.base + H)) && BackwardFires(st, Some(st.base + H))
    ensures var r := FreeSpec(st, Some(st.base + H));
      r.heapList == Some(st.base) && st.base in st.blocks && Closed(r.hdr, st.blocks)
  {
    var m := |st.blocks|;
    Distinct(st.hdr, st.blocks, st.base, st.top, 0, m - 1);
    IndexOfListed(st.hdr, st.blocks, st.base, st.top, 0);
    var r := FreeSpec(st, Some(st.base + H));
    forall j | 0 <= j < m
      ensures st.blocks[j] in r.hdr && r.hdr[st.blocks[j]].next.Some? && r.hdr[st.blocks[j]].next.value in st.blocks
    {
      assert Linked(st.hdr, st.blocks, st.top, j);
      if j < m - 1 {
        Distinct(st.hdr, st.blocks, st.base, st.top, j, m - 1);
        assert st.blocks[j + 1] in st.blocks;
      } else {
        assert Linked(st.hdr, st.blocks, st.top, 0);
        assert Linked(st.hdr, st.blocks, st.top, 1);
        if m > 2 {
          Distinct(st.hdr, st.blocks, st.base, st.top, 1, m - 1);
          Distinct(st.hdr, st.blocks, st.base, st.top, 0, 1);
          assert st.blocks[2] in st.blocks;
        }
        assert st.blocks[1] in st.blocks;
      }
    }
  }
}
