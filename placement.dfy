/** The placement policies of findFreeBlock, as searches over the list's headers.

    A search takes the headers in list order and the aligned request n, and answers with
    a list index. The build selects one policy; without one, the search returns the head. */
module Placement {
  import opened Heap

  /** The build-time selection of findFreeBlock: FIT, BEST, WORST, NEXT, or none of them. */
  datatype Policy = FirstFit | BestFit | WorstFit | NextFit | NoPolicy

  /** A block can serve a request of n bytes. */
  predicate Fits(h: Header, n: nat) {
    h.free && h.size >= n
  }

  /** The first index in [lo, hi) whose block fits, or None. */
  function FirstFitIn(s: seq<Header>, n: nat, lo: nat, hi: nat): (r: Option<nat>)
    requires lo <= hi <= |s|
    ensures r.Some? ==> lo <= r.value < hi && Fits(s[r.value], n)
    ensures r.Some? ==> forall j :: lo <= j < r.value ==> !Fits(s[j], n)
    ensures r.None? <==> forall j :: lo <= j < hi ==> !Fits(s[j], n)
    decreases hi - lo
  {
    if lo == hi then None
    else if Fits(s[lo], n) then Some(lo)
    else FirstFitIn(s, n, lo + 1, hi)
  }

  /** A scan from lo that passed only misfits and stopped at k (a fit, or the end) found
      what FirstFitIn finds. */
  lemma FirstFitAt(s: seq<Header>, n: nat, lo: nat, k: nat)
    requires lo <= k <= |s| && (k < |s| ==> Fits(s[k], n))
    requires forall j :: lo <= j < k ==> !Fits(s[j], n)
    ensures FirstFitIn(s, n, lo, |s|) == if k < |s| then Some(k) else None
  {
  }

  /** Best fit, scanning the list from its head: the fitting block of least size, the first
      one wins ties (the scan replaces its candidate only on a strictly smaller size). */
  function BestFitIndex(s: seq<Header>, n: nat): (r: Option<nat>)
    ensures r.Some? ==> r.value < |s| && Fits(s[r.value], n)
    ensures r.Some? ==> forall j :: 0 <= j < |s| && Fits(s[j], n) ==> s[r.value].size <= s[j].size
    ensures r.Some? ==> forall j :: 0 <= j < r.value && Fits(s[j], n) ==> s[r.value].size < s[j].size
    ensures r.None? <==> forall j :: 0 <= j < |s| ==> !Fits(s[j], n)
    decreases |s|
  {
    if s == [] then None
    else
      var r := BestFitIndex(s[..|s| - 1], n);
      var k := |s| - 1;
      if Fits(s[k], n) && (r.None? || s[k].size < s[r.value].size) then Some(k) else r
  }

  /** One step of the best-fit scan: extending the scanned prefix by block k. */
  lemma BestFitStep(s: seq<Header>, k: nat, n: nat)
    requires k < |s|
    ensures var r := BestFitIndex(s[..k], n);
      BestFitIndex(s[..k + 1], n) ==
        if Fits(s[k], n) && (r.None? || s[k].size < s[r.value].size) then Some(k) else r
  {
    assert s[..k + 1][..k] == s[..k];
  }

  /** Worst fit: the fitting block of greatest size, the first one wins ties. */
  function WorstFitIndex(s: seq<Header>, n: nat): (r: Option<nat>)
    ensures r.Some? ==> r.value < |s| && Fits(s[r.value], n)
    ensures r.Some? ==> forall j :: 0 <= j < |s| && Fits(s[j], n) ==> s[r.value].size >= s[j].size
    ensures r.Some? ==> forall j :: 0 <= j < r.value && Fits(s[j], n) ==> s[r.value].size > s[j].size
    ensures r.None? <==> forall j :: 0 <= j < |s| ==> !Fits(s[j], n)
    decreases |s|
  {
    if s == [] then None
    else
      var r := WorstFitIndex(s[..|s| - 1], n);
      var k := |s| - 1;
      if Fits(s[k], n) && (r.None? || s[k].size > s[r.value].size) then Some(k) else r
  }

  /** One step of the worst-fit scan. */
  lemma WorstFitStep(s: seq<Header>, k: nat, n: nat)
    requires k < |s|
    ensures var r := WorstFitIndex(s[..k], n);
      WorstFitIndex(s[..k + 1], n) ==
        if Fits(s[k], n) && (r.None? || s[k].size > s[r.value].size) then Some(k) else r
  {
    assert s[..k + 1][..k] == s[..k];
  }

  /** Next fit from the cursor c: the first fit after the cursor, else the first fit before it,
      else the cursor block itself, whether or not it fits. Without a cursor: first fit. */
  function NextFitIndex(s: seq<Header>, n: nat, c: Option<nat>): (r: Option<nat>)
    requires c.Some? ==> c.value < |s|
    ensures c.None? ==> r == FirstFitIn(s, n, 0, |s|)
    ensures c.Some? ==> r.Some? && r.value < |s|
    ensures c.Some? && (exists j :: c.value < j < |s| && Fits(s[j], n)) ==>
              c.value < r.value && Fits(s[r.value], n) &&
              forall j :: c.value < j < r.value ==> !Fits(s[j], n)
    ensures c.Some? && (forall j :: c.value < j < |s| ==> !Fits(s[j], n)) ==>
              r.value <= c.value && (r.value < c.value ==> Fits(s[r.value], n)) &&
              forall j :: 0 <= j < r.value ==> !Fits(s[j], n)
  {
    match c
    case None => FirstFitIn(s, n, 0, |s|)
    case Some(k) =>
      match FirstFitIn(s, n, k + 1, |s|)
      case Some(j) => Some(j)
      case None => Some(WrapStop(s, n, k))
  }

  /** Where the wrapped-around second scan of next fit stops: the first fit before the cursor
      k, or k itself. */
  function WrapStop(s: seq<Header>, n: nat, k: nat): (j: nat)
    requires k < |s|
    ensures j <= k && (j < k ==> Fits(s[j], n))
    ensures forall i :: 0 <= i < j ==> !Fits(s[i], n)
  {
    match FirstFitIn(s, n, 0, k)
    case Some(j) => j
    case None => k
  }

  /** The index findFreeBlock returns under policy p, with cursor index c. */
  function Search(p: Policy, s: seq<Header>, n: nat, c: Option<nat>): (r: Option<nat>)
    requires c.Some? ==> c.value < |s|
    ensures r.Some? ==> r.value < |s|
  {
    match p
    case FirstFit => FirstFitIn(s, n, 0, |s|)
    case BestFit => BestFitIndex(s, n)
    case WorstFit => WorstFitIndex(s, n)
    case NextFit => NextFitIndex(s, n, c)
    case NoPolicy => if |s| == 0 then None else Some(0)
  }

  /** The index findFreeBlock leaves in *last: the block visited just before the one it stops
      on. Initially null; first fit records every block it passes; best and worst fit
      record the whole list; next fit records what both of its scans pass. When a scan
      passes blocks before it stops on block j, *last is block j - 1 (LastPrecedesFound). */
  function LastVisited(p: Policy, s: seq<Header>, n: nat, c: Option<nat>): (r: Option<nat>)
    requires c.Some? ==> c.value < |s|
    ensures r.Some? ==> r.value < |s|
  {
    match p
    case FirstFit => FirstFitLast(s, n)
    case BestFit => TailIdxOf(|s|)
    case WorstFit => TailIdxOf(|s|)
    case NoPolicy => None
    case NextFit =>
      var lo := ScanStart(c);
      var first := FirstFitIn(s, n, lo, |s|);
      if first.Some? || c.None? then Passed(lo, first, |s|)
      else
        var j := WrapStop(s, n, c.value);
        if j > 0 then Some(j - 1) else Passed(lo, None, |s|)
  }

  /** The index of the last of m blocks, None when there are none. */
  function TailIdxOf(m: nat): Option<nat> {
    if m == 0 then None else Some(m - 1)
  }

  /** Where next fit's first scan starts: just after the cursor, or at the head. */
  function ScanStart(c: Option<nat>): nat {
    if c.None? then 0 else c.value + 1
  }

  /** The last index a scan from lo passes when it stops at r, or runs off the end of a list
      of m blocks. */
  function Passed(lo: nat, r: Option<nat>, m: nat): Option<nat> {
    match r
    case Some(j) => if j <= lo then None else Some(j - 1)
    case None => if lo < m then Some(m - 1) else None
  }

  function FirstFitLast(s: seq<Header>, n: nat): Option<nat> {
    Passed(0, FirstFitIn(s, n, 0, |s|), |s|)
  }

  /** *last is the block just before the one findFreeBlock answers with, unless the scan
      that found it stopped on its first block: then *last is null (for next fit, what the
      first scan left when the second stopped at the head). Best and worst fit leave the
      tail. */
  lemma LastPrecedesFound(p: Policy, s: seq<Header>, n: nat, c: Option<nat>)
    requires c.Some? ==> c.value < |s|
    ensures (p == BestFit || p == WorstFit) ==> LastVisited(p, s, n, c) == TailIdxOf(|s|)
    ensures p == FirstFit && Search(p, s, n, c).Some? ==>
              LastVisited(p, s, n, c) ==
              (if Search(p, s, n, c).value == 0 then None else Some(Search(p, s, n, c).value - 1))
    ensures p == NextFit && c.Some? &&
              (0 < Search(p, s, n, c).value <= c.value || c.value + 1 < Search(p, s, n, c).value) ==>
              LastVisited(p, s, n, c) == Some(Search(p, s, n, c).value - 1)
    ensures p == NextFit && c.Some? && Search(p, s, n, c).value == c.value + 1 ==>
              LastVisited(p, s, n, c).None?
  {
  }

  /** A policy that only ever answers with a block that fits. */
  predicate Searching(p: Policy) {
    p == FirstFit || p == BestFit || p == WorstFit
  }

  /** First, best and worst fit answer with a fitting block, and answer None only when no
      listed block fits. */
  lemma SearchFits(p: Policy, s: seq<Header>, n: nat, c: Option<nat>)
    requires Searching(p) && (c.Some? ==> c.value < |s|)
    ensures Search(p, s, n, c).Some? ==> Fits(s[Search(p, s, n, c).value], n)
    ensures Search(p, s, n, c).None? <==> forall j :: 0 <= j < |s| ==> !Fits(s[j], n)
  {
  }

  /** Reuse before growth: when some listed block fits, every policy answers with a block. */
  lemma SearchFindsWhenSomethingFits(p: Policy, s: seq<Header>, n: nat, c: Option<nat>, j: nat)
    requires c.Some? ==> c.value < |s|
    requires j < |s| && Fits(s[j], n)
    ensures Search(p, s, n, c).Some?
  {
    if p == NextFit && c.None? {
      assert FirstFitIn(s, n, 0, |s|).Some?;
    }
  }

  /** Next fit fails only without a cursor: once the cursor is set, it always answers. */
  lemma NextFitFailsOnlyWithoutCursor(s: seq<Header>, n: nat, c: Option<nat>)
    requires c.Some? ==> c.value < |s|
    ensures NextFitIndex(s, n, c).None? ==> c.None? && forall j :: 0 <= j < |s| ==> !Fits(s[j], n)
  {
  }

  /** When findFreeBlock finds nothing, *last is the tail of the list (null if it is empty), so
      growHeap appends after the tail. */
  lemma MissLeavesTail(p: Policy, s: seq<Header>, n: nat, c: Option<nat>)
    requires c.Some? ==> c.value < |s|
    requires Search(p, s, n, c).None?
    ensures LastVisited(p, s, n, c) == TailIdxOf(|s|)
  {
    if p == NextFit {
      NextFitFailsOnlyWithoutCursor(s, n, c);
    }
  }
}
