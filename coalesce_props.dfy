/** What the standalone coalesce does, stated on CoalesceSpec. */
module CoalesceProps {
  import opened Heap
  import opened Engine

  /** The guard `nextBlock != heapList` never fails on a well-formed list: the successor of a
      listed block is never the head. */
  lemma CoalesceHeadGuardRedundant(st: Store, i: nat)
    requires Inv(st) && i < |st.blocks|
    ensures st.hdr[st.blocks[i]].next != st.heapList
  {
    assert Linked(st.hdr, st.blocks, st.top, i);
    if i + 1 < |st.blocks| {
      Distinct(st.hdr, st.blocks, st.base, st.top, 0, i + 1);
    }
  }

  /** coalesce(b) merges b with a free successor: b's payload grows by the successor's header
      and payload and b takes over its link; the successor leaves the list; num_coalesces +1,
      num_blocks -1, max_heap -H; next_fit_ptr, the break, b's flag and every other listed
      header are kept. Without a free successor nothing changes. */
  lemma CoalesceOutcome(st: Store, i: nat)
    requires Inv(st) && i < |st.blocks|
    ensures var b := st.blocks[i]; var r := CoalesceSpec(st, b);
      if i + 1 < |st.blocks| && st.hdr[st.blocks[i + 1]].free then
        var c := st.blocks[i + 1];
        r.blocks == RemoveAt(st.blocks, i + 1) && b in r.hdr &&
        r.hdr[b] == Header(st.hdr[b].size + H + st.hdr[c].size, At(st.blocks, i + 2), st.hdr[b].free) &&
        (forall a :: a in st.blocks && a != b ==> a in r.hdr && r.hdr[a] == st.hdr[a]) &&
        r.cursor == st.cursor && r.top == st.top && r.heapList == st.heapList &&
        r.stats == st.stats.(coalesces := st.stats.coalesces + 1, blocks := st.stats.blocks - 1,
                             maxHeap := st.stats.maxHeap - H)
      else r == st
  {
    var b := st.blocks[i];
    IndexOfListed(st.hdr, st.blocks, st.base, st.top, i);
    CoalesceHeadGuardRedundant(st, i);
    assert Linked(st.hdr, st.blocks, st.top, i);
    if i + 1 < |st.blocks| {
      assert Linked(st.hdr, st.blocks, st.top, i + 1);
    }
  }

  /** The list invariant survives coalesce, unless next_fit_ptr pointed at the absorbed
      block. */
  lemma CoalescePreservesInv(st: Store, i: nat)
    requires Inv(st) && i < |st.blocks|
    requires i + 1 < |st.blocks| ==> st.cursor != Some(st.blocks[i + 1])
    ensures Inv(CoalesceSpec(st, st.blocks[i]))
  {
    CoalesceOutcome(st, i);
    if i + 1 < |st.blocks| && st.hdr[st.blocks[i + 1]].free {
      var r := CoalesceSpec(st, st.blocks[i]);
      assert Linked(st.hdr, st.blocks, st.top, i);
      AbsorbTiles(st.hdr, st.blocks, st.base, st.top, i);
      assert r.hdr == Absorb(st.hdr, st.blocks[i], st.blocks[i + 1]);
      Distinct(st.hdr, st.blocks, st.base, st.top, 0, i + 1);
      assert r.cursor.Some? ==> r.cursor.value in r.blocks by {
        if r.cursor.Some? {
          var k := IndexOf(st.blocks, r.cursor.value);
          if k != i + 1 {
            Distinct(st.hdr, st.blocks, st.base, st.top, k, i + 1);
            if k < i + 1 { assert r.blocks[k] == st.blocks[k]; } else { assert r.blocks[k - 1] == st.blocks[k]; }
          }
        }
      }
      assert r.heapList == At(r.blocks, 0);
    }
  }

  /** Unlike free, coalesce does not repair next_fit_ptr: when it pointed at the absorbed
      block, it is left on a header that is no longer listed. */
  lemma CoalesceStrandsCursor(st: Store, i: nat)
    requires Inv(st) && i + 1 < |st.blocks| && st.hdr[st.blocks[i + 1]].free
    requires st.cursor == Some(st.blocks[i + 1])
    ensures var r := CoalesceSpec(st, st.blocks[i]);
      r.cursor == st.cursor && st.blocks[i + 1] !in r.blocks && !Inv(r)
  {
    CoalesceOutcome(st, i);
    var r := CoalesceSpec(st, st.blocks[i]);
    var c := st.blocks[i + 1];
    if c in r.blocks {
      var k :| 0 <= k < |r.blocks| && r.blocks[k] == c;
      if k <= i {
        assert r.blocks[k] == st.blocks[k];
        Distinct(st.hdr, st.blocks, st.base, st.top, k, i + 1);
      } else {
        assert r.blocks[k] == st.blocks[k + 1];
        Distinct(st.hdr, st.blocks, st.base, st.top, k + 1, i + 1);
      }
    }
  }
}
