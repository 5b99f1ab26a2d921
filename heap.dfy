/** The block store: block headers and the address-ordered list they form.

    Every block is a header of H bytes followed by its payload. The allocator threads
    the headers into one singly linked list in address order; a header's `next` is the
    block that starts right after its payload. Header memory is modelled as a map from
    the header's address to its contents. A header that a merge absorbs stays in the map
    (nothing erases it in memory); only the list stops reaching it. */
module Heap {

  /** Byte addresses of the process's address space. */
  type Addr = nat

  /** sizeof(struct _block) on LP64: size_t, a pointer, a bool and 3 bytes of padding,
      rounded up to the 8-byte alignment of its widest member. */
  const H: nat := 24

  newtype byte = x: int | 0 <= x < 256

  datatype Option<T> = None | Some(value: T)

  /** struct _block: payload size, address of the next header, free flag. */
  datatype Header = Header(size: nat, next: Option<Addr>, free: bool)

  /** First address after the payload of the block whose header is `h`, at `a`. */
  function End(a: Addr, h: Header): nat { a + H + h.size }

  /** The i-th listed block, or None (the null pointer) past the end of the list. */
  function At(blocks: seq<Addr>, i: nat): Option<Addr> {
    if i < |blocks| then Some(blocks[i]) else None
  }

  /** The address of the index `r`, for search results given as list indices. */
  function AtIdx(blocks: seq<Addr>, r: Option<nat>): Option<Addr> {
    if r.Some? && r.value < |blocks| then Some(blocks[r.value]) else None
  }

  /** The index of the last block, None for an empty list. */
  function TailIdx(blocks: seq<Addr>): Option<nat> {
    if |blocks| == 0 then None else Some(|blocks| - 1)
  }

  /** Block i is listed, links to block i + 1 (or ends the list), has a payload size that is a
      multiple of 4, and its payload ends where block i + 1 (or the heap) starts. */
  ghost predicate Linked(hdr: map<Addr, Header>, blocks: seq<Addr>, top: Addr, i: nat)
    requires i < |blocks|
  {
    blocks[i] in hdr &&
    hdr[blocks[i]].next == At(blocks, i + 1) &&
    hdr[blocks[i]].size % 4 == 0 &&
    End(blocks[i], hdr[blocks[i]]) == (if i + 1 < |blocks| then blocks[i + 1] else top)
  }

  /** The list invariant: following `next` from the first block visits exactly `blocks`, the
      blocks meet each other exactly, and together they cover [base, top). */
  ghost predicate Tiles(hdr: map<Addr, Header>, blocks: seq<Addr>, base: Addr, top: Addr) {
    (forall i :: 0 <= i < |blocks| ==> blocks[i] in hdr) &&
    (forall i :: 0 <= i < |blocks| ==> Linked(hdr, blocks, top, i)) &&
    (if |blocks| == 0 then top == base else blocks[0] == base)
  }

  /** The headers of the list, in list order. */
  ghost function Headers(hdr: map<Addr, Header>, blocks: seq<Addr>): (s: seq<Header>)
    requires forall i :: 0 <= i < |blocks| ==> blocks[i] in hdr
    ensures |s| == |blocks|
    ensures forall i :: 0 <= i < |blocks| ==> s[i] == hdr[blocks[i]]
  {
    seq(|blocks|, i requires 0 <= i < |blocks| => hdr[blocks[i]])
  }

  /** Header and payload bytes of a sequence of blocks. */
  function Bytes(s: seq<Header>): nat {
    if s == [] then 0 else H + s[0].size + Bytes(s[1..])
  }

  /** Following `next` k times from p; None once the list ends or leaves the headers. */
  function Follow(hdr: map<Addr, Header>, p: Option<Addr>, k: nat): Option<Addr>
    decreases k
  {
    if k == 0 then p
    else match p
      case None => None
      case Some(a) => if a in hdr then Follow(hdr, hdr[a].next, k - 1) else None
  }

  function IndexOf(blocks: seq<Addr>, a: Addr): (k: nat)
    requires a in blocks
    ensures k < |blocks| && blocks[k] == a
    ensures forall j :: 0 <= j < k ==> blocks[j] != a
  {
    if blocks[0] == a then 0 else 1 + IndexOf(blocks[1..], a)
  }

  function InsertAt(s: seq<Addr>, k: nat, x: Addr): (r: seq<Addr>)
    requires k <= |s|
  {
    s[..k] + [x] + s[k..]
  }

  lemma InsertAtKeeps(s: seq<Addr>, k: nat, x: Addr)
    requires k <= |s|
    ensures forall a :: a in s ==> a in InsertAt(s, k, x)
    ensures x in InsertAt(s, k, x)
  {
    forall a | a in s ensures a in InsertAt(s, k, x) {
      var j :| 0 <= j < |s| && s[j] == a;
      if j < k { assert InsertAt(s, k, x)[j] == a; } else { assert InsertAt(s, k, x)[j + 1] == a; }
    }
    assert InsertAt(s, k, x)[k] == x;
  }

  function RemoveAt(s: seq<Addr>, k: nat): (r: seq<Addr>)
    requires k < |s|
  {
    s[..k] + s[k + 1..]
  }

  // ---------------------------------------------------------------------------
  // In-place header updates of the allocator, as functions on the header memory.

  /** Writing the free flag of the header at a: no other header and no other field changes. */
  function SetFree(hdr: map<Addr, Header>, a: Addr, f: bool): (r: map<Addr, Header>)
    requires a in hdr
    ensures a in r && r == hdr[a := r[a]]
    ensures r[a].free == f && r[a].size == hdr[a].size && r[a].next == hdr[a].next
  {
    hdr[a := hdr[a].(free := f)]
  }

  /** Block a absorbs block b: a's payload grows by b's header and payload, and a takes over
      b's link. Only a's header is written; when b starts right after a's payload, the merged
      block ends where b ended. */
  function Absorb(hdr: map<Addr, Header>, a: Addr, b: Addr): (r: map<Addr, Header>)
    requires a in hdr && b in hdr
    ensures a in r && r == hdr[a := r[a]]
    ensures r[a].free == hdr[a].free && r[a].next == hdr[b].next
    ensures End(a, hdr[a]) == b ==> End(a, r[a]) == End(b, hdr[b])
  {
    hdr[a := hdr[a].(size := hdr[a].size + H + hdr[b].size, next := hdr[b].next)]
  }

  /** splitBlock: a free header for the remainder is written n payload bytes into block a,
      inheriting a's link; then a shrinks to n and links to the remainder. Block a now ends
      where the remainder starts, and the remainder ends where a used to end. */
  function Split(hdr: map<Addr, Header>, a: Addr, n: nat): (r: map<Addr, Header>)
    requires a in hdr && hdr[a].size >= n + H
    ensures var rem := a + H + n;
      a in r && rem in r &&
      r[a].size == n && r[a].free == hdr[a].free && r[a].next == Some(rem) && End(a, r[a]) == rem &&
      r[rem].free && r[rem].next == hdr[a].next && End(rem, r[rem]) == End(a, hdr[a])
  {
    var h := hdr[a];
    var r := a + H + n;
    hdr[r := Header(h.size - n - H, h.next, true)][a := h.(size := n, next := Some(r))]
  }

  /** growHeap: the old tail (if any) links to the new block at top, whose header says n
      bytes, in use, end of list, and ends H + n bytes above the old break. Nothing else is
      written. */
  function Grown(hdr: map<Addr, Header>, last: Option<Addr>, top: Addr, n: nat): (r: map<Addr, Header>)
    requires last.Some? ==> last.value in hdr
    ensures top in r && r[top] == Header(n, None, false) && End(top, r[top]) == top + H + n
    ensures last.Some? && last.value != top ==>
              last.value in r && r[last.value] == hdr[last.value].(next := Some(top))
    ensures last.None? ==> r == hdr[top := r[top]]
    ensures last.Some? ==> r == hdr[last.value := r[last.value]][top := r[top]]
  {
    var linked := if last.Some? then hdr[last.value := hdr[last.value].(next := Some(top))] else hdr;
    linked[top := Header(n, None, false)]
  }

  // ---------------------------------------------------------------------------
  // Consequences of the list invariant.

  /** List order is address order: earlier blocks lie wholly below later ones. */
  lemma {:induction false} Ordered(hdr: map<Addr, Header>, blocks: seq<Addr>, base: Addr, top: Addr, i: nat, j: nat)
    requires Tiles(hdr, blocks, base, top)
    requires i < j < |blocks|
    ensures End(blocks[i], hdr[blocks[i]]) <= blocks[j]
    decreases j - i
  {
    assert Linked(hdr, blocks, top, i);
    if i + 1 < j {
      assert Linked(hdr, blocks, top, i + 1);
      Ordered(hdr, blocks, base, top, i + 1, j);
    }
  }

  /** Every listed block lies within [base, top). */
  lemma {:induction false} Bounded(hdr: map<Addr, Header>, blocks: seq<Addr>, base: Addr, top: Addr, i: nat)
    requires Tiles(hdr, blocks, base, top)
    requires i < |blocks|
    ensures base <= blocks[i] && End(blocks[i], hdr[blocks[i]]) <= top
    decreases |blocks| - i
  {
    assert Linked(hdr, blocks, top, i);
    if 0 < i {
      Ordered(hdr, blocks, base, top, 0, i);
    }
    if i + 1 < |blocks| {
      Bounded(hdr, blocks, base, top, i + 1);
    }
  }

  /** No block is listed twice: the list is acyclic. */
  lemma Distinct(hdr: map<Addr, Header>, blocks: seq<Addr>, base: Addr, top: Addr, i: nat, j: nat)
    requires Tiles(hdr, blocks, base, top)
    requires i < |blocks| && j < |blocks| && i != j
    ensures blocks[i] != blocks[j]
  {
    if i < j { Ordered(hdr, blocks, base, top, i, j); } else { Ordered(hdr, blocks, base, top, j, i); }
  }

  /** The position of a listed block is unique. */
  lemma IndexOfListed(hdr: map<Addr, Header>, blocks: seq<Addr>, base: Addr, top: Addr, j: nat)
    requires Tiles(hdr, blocks, base, top)
    requires j < |blocks|
    ensures IndexOf(blocks, blocks[j]) == j
  {
    var k := IndexOf(blocks, blocks[j]);
    if k != j { Distinct(hdr, blocks, base, top, k, j); }
  }

  /** Walking the links from the first block visits the listed blocks in order and reaches the
      end of the list after exactly |blocks| steps. */
  lemma {:induction false} WalkVisitsList(hdr: map<Addr, Header>, blocks: seq<Addr>, base: Addr, top: Addr, j: nat, k: nat)
    requires Tiles(hdr, blocks, base, top)
    requires j + k <= |blocks|
    ensures Follow(hdr, At(blocks, j), k) == At(blocks, j + k)
    decreases k
  {
    if k > 0 {
      assert Linked(hdr, blocks, top, j);
      WalkVisitsList(hdr, blocks, base, top, j + 1, k - 1);
    }
  }

  /** The blocks' headers and payloads cover exactly the grown part of the address space. */
  lemma CoversHeap(hdr: map<Addr, Header>, blocks: seq<Addr>, base: Addr, top: Addr)
    requires Tiles(hdr, blocks, base, top)
    ensures base + Bytes(Headers(hdr, blocks)) == top
  {
    if |blocks| > 0 {
      CoversFrom(hdr, blocks, base, top, 0);
      assert Headers(hdr, blocks)[0..] == Headers(hdr, blocks);
    }
  }

  lemma {:induction false} CoversFrom(hdr: map<Addr, Header>, blocks: seq<Addr>, base: Addr, top: Addr, j: nat)
    requires Tiles(hdr, blocks, base, top)
    requires j < |blocks|
    ensures blocks[j] + Bytes(Headers(hdr, blocks)[j..]) == top
    decreases |blocks| - j
  {
    var s := Headers(hdr, blocks);
    assert Linked(hdr, blocks, top, j);
    assert s[j..][1..] == s[j + 1..];
    if j + 1 < |blocks| {
      CoversFrom(hdr, blocks, base, top, j + 1);
    } else {
      assert s[j + 1..] == [];
    }
  }

  // ---------------------------------------------------------------------------
  // The header updates keep the list invariant.

  lemma SetFreeTiles(hdr: map<Addr, Header>, blocks: seq<Addr>, base: Addr, top: Addr, a: Addr, f: bool)
    requires Tiles(hdr, blocks, base, top) && a in hdr
    ensures Tiles(SetFree(hdr, a, f), blocks, base, top)
    ensures Headers(SetFree(hdr, a, f), blocks) == seq(|blocks|, i requires 0 <= i < |blocks| =>
              if blocks[i] == a then hdr[a].(free := f) else hdr[blocks[i]])
  {
    var h' := SetFree(hdr, a, f);
    forall i | 0 <= i < |blocks| ensures Linked(h', blocks, top, i) {
      assert Linked(hdr, blocks, top, i);
    }
  }

  /** Splitting block i at n inserts the remainder right after it and keeps the tiling. */
  lemma SplitTiles(hdr: map<Addr, Header>, blocks: seq<Addr>, base: Addr, top: Addr, i: nat, n: nat)
    requires Tiles(hdr, blocks, base, top)
    requires i < |blocks| && n % 4 == 0 && hdr[blocks[i]].size >= n + H
    ensures Tiles(Split(hdr, blocks[i], n), InsertAt(blocks, i + 1, blocks[i] + H + n), base, top)
  {
    var a := blocks[i];
    var r := a + H + n;
    var h' := Split(hdr, a, n);
    var b' := InsertAt(blocks, i + 1, r);
    assert Linked(hdr, blocks, top, i);
    assert |b'| == |blocks| + 1;
    assert forall k :: 0 <= k <= i ==> b'[k] == blocks[k];
    assert b'[i + 1] == r;
    assert forall k :: i + 1 < k < |b'| ==> b'[k] == blocks[k - 1];
    forall k | 0 <= k < |b'| ensures Linked(h', b', top, k) {
      if k < i {
        assert Linked(hdr, blocks, top, k);
        Ordered(hdr, blocks, base, top, k, i);
      } else if k == i {
      } else if k == i + 1 {
      } else {
        assert Linked(hdr, blocks, top, k - 1);
        Ordered(hdr, blocks, base, top, i, k - 1);
      }
    }
  }

  /** Block i absorbing its successor drops the successor from the list and keeps the
      tiling. */
  lemma AbsorbTiles(hdr: map<Addr, Header>, blocks: seq<Addr>, base: Addr, top: Addr, i: nat)
    requires Tiles(hdr, blocks, base, top)
    requires i + 1 < |blocks|
    ensures Tiles(Absorb(hdr, blocks[i], blocks[i + 1]), RemoveAt(blocks, i + 1), base, top)
  {
    var h' := Absorb(hdr, blocks[i], blocks[i + 1]);
    var b' := RemoveAt(blocks, i + 1);
    assert Linked(hdr, blocks, top, i);
    assert Linked(hdr, blocks, top, i + 1);
    assert |b'| == |blocks| - 1;
    assert forall k :: 0 <= k <= i ==> b'[k] == blocks[k];
    assert forall k :: i < k < |b'| ==> b'[k] == blocks[k + 1];
    forall k | 0 <= k < |b'| ensures Linked(h', b', top, k) {
      if k < i {
        assert Linked(hdr, blocks, top, k);
        Distinct(hdr, blocks, base, top, k, i);
      } else if k == i {
      } else {
        assert Linked(hdr, blocks, top, k + 1);
        Distinct(hdr, blocks, base, top, k + 1, i);
      }
    }
  }

  /** Appending a block at top, linked from the old tail, keeps the tiling of a heap grown by
      H + n bytes. */
  lemma GrowTiles(hdr: map<Addr, Header>, blocks: seq<Addr>, base: Addr, top: Addr, n: nat)
    requires Tiles(hdr, blocks, base, top)
    requires n % 4 == 0
    ensures AtIdx(blocks, TailIdx(blocks)).Some? ==> AtIdx(blocks, TailIdx(blocks)).value in hdr
    ensures Tiles(Grown(hdr, AtIdx(blocks, TailIdx(blocks)), top, n), blocks + [top], base, top + H + n)
  {
    var m := |blocks|;
    var last := AtIdx(blocks, TailIdx(blocks));
    if m > 0 { assert Linked(hdr, blocks, top, m - 1); }
    var h' := Grown(hdr, last, top, n);
    var b' := blocks + [top];
    var top' := top + H + n;
    forall k | 0 <= k < |b'| ensures Linked(h', b', top', k) {
      if k < m {
        assert Linked(hdr, blocks, top, k);
        Bounded(hdr, blocks, base, top, k);
        if k < m - 1 { Distinct(hdr, blocks, base, top, k, m - 1); }
      }
    }
  }

  // ---------------------------------------------------------------------------
  // The header updates leave every other listed header as it was.

  /** Splitting block i writes no other listed header: the remainder lies strictly inside
      block i's payload, so it is none of them. */
  lemma SplitKeepsOthers(hdr: map<Addr, Header>, blocks: seq<Addr>, base: Addr, top: Addr, i: nat, n: nat)
    requires Tiles(hdr, blocks, base, top)
    requires i < |blocks| && hdr[blocks[i]].size >= n + H
    ensures forall a :: a in blocks && a != blocks[i] ==>
              a in Split(hdr, blocks[i], n) && Split(hdr, blocks[i], n)[a] == hdr[a]
  {
    forall a | a in blocks && a != blocks[i]
      ensures a in Split(hdr, blocks[i], n) && Split(hdr, blocks[i], n)[a] == hdr[a]
    {
      var j :| 0 <= j < |blocks| && blocks[j] == a;
      if j < i { Ordered(hdr, blocks, base, top, j, i); } else { Ordered(hdr, blocks, base, top, i, j); }
    }
  }

  /** growHeap writes no listed header but the old tail's: the new header lies at the
      break, above every listed block. */
  lemma GrownKeepsOthers(hdr: map<Addr, Header>, blocks: seq<Addr>, base: Addr, top: Addr, n: nat)
    requires Tiles(hdr, blocks, base, top)
    ensures var last := AtIdx(blocks, TailIdx(blocks));
      last.Some? ==> last.value in hdr
    ensures var last := AtIdx(blocks, TailIdx(blocks));
      forall a :: a in blocks && Some(a) != last ==>
        a in Grown(hdr, last, top, n) && Grown(hdr, last, top, n)[a] == hdr[a]
  {
    var last := AtIdx(blocks, TailIdx(blocks));
    if |blocks| > 0 { assert Linked(hdr, blocks, top, |blocks| - 1); }
    forall a | a in blocks && Some(a) != last
      ensures a in Grown(hdr, last, top, n) && Grown(hdr, last, top, n)[a] == hdr[a]
    {
      var j :| 0 <= j < |blocks| && blocks[j] == a;
      Bounded(hdr, blocks, base, top, j);
    }
  }
}
