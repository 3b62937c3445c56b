/**
 The offset filter of LKSM regions (CONFIG_LKSM_FILTER in mm/lksm.c).
 A region records, one bit per page offset, where pages were merged; once
 mature, the scan skips straight to the next recorded offset. A filter of
 SINGLE_FILTER_LEN words lives in the region itself (`single_filter`), a
 longer one is allocated (`filter`); the two share a union, so the set of
 recorded offsets is modelled once, as `bits`, and `hasArray` says whether
 the array of a long filter exists.
 */
module RegionFilter {
  import opened KsmDefs

  const BITS_PER_LONG: nat := 64
  /** A region of at most 64 pages is covered by one word. */
  const SINGLE_FILTER_LEN: nat := 1

  datatype RegionType = Heap | Stack | File1 | File2 | Conflict | Unknown

  /** An lksm_region, without its hash and list links and reference count. */
  datatype Region = Region(
    rtype: RegionType,
    mergeCnt: int,
    filterCnt: int,
    conflict: int,
    len: nat,             // filter length in words
    hasArray: bool,      // `filter` points to an array (meaningful when len > SINGLE_FILTER_LEN)
    bits: set<nat>)       // offsets whose bit is set

  /** Only file-mapped regions record offsets. */
  predicate IsFile(t: RegionType) {
    t == File1 || t == File2
  }

  /** Regions whose filter follows the size of their vma. */
  predicate IsSized(t: RegionType) {
    t == Stack || IsFile(t)
  }

  /** The filter holds only offsets it has room for, a long filter without its
      array holds none, only file regions record offsets, and a file
      region's filter_cnt counts its set bits. */
  predicate FilterWf(r: Region) {
    && (forall b :: b in r.bits ==> b < r.len * BITS_PER_LONG)
    && (r.len > SINGLE_FILTER_LEN && !r.hasArray ==> r.bits == {})
    && (!IsFile(r.rtype) ==> r.bits == {})
    && (IsFile(r.rtype) ==> r.filterCnt == |r.bits|)
  }

  // ---------------------------------------------------------------------
  // Sizing

  /** lksm_bitmap_size: the number of 64-bit words covering `size` bits. */
  function BitmapSize(size: nat): (n: nat)
    ensures n * BITS_PER_LONG >= size
    ensures n == 0 || (n - 1) * BITS_PER_LONG < size
  {
    size / 64 + (if size % BITS_PER_LONG != 0 then 1 else 0)
  }

  /** No smaller number of words covers `size` bits: BitmapSize is ceil(size / 64). */
  lemma BitmapSizeLeast(size: nat, k: nat)
    requires k * BITS_PER_LONG >= size
    ensures BitmapSize(size) <= k
  {
  }

  /** The number of pages of a vma (lksm_region_size). */
  function RegionSize(start: Addr, end: Addr): (n: nat)
    requires start <= end
    ensures n * PAGE_SIZE <= end - start < (n + 1) * PAGE_SIZE
  {
    (end - start) / PAGE_SIZE
  }

  /** The filter length a vma of `size` pages asks for: a bitmap when it has
      more than 64 pages, the single word otherwise. */
  function FilterLen(size: nat): (len: nat)
    ensures len >= SINGLE_FILTER_LEN && len * BITS_PER_LONG >= size
    ensures len > SINGLE_FILTER_LEN <==> size > BITS_PER_LONG
  {
    if size > BITS_PER_LONG then BitmapSize(size) else SINGLE_FILTER_LEN
  }

  // ---------------------------------------------------------------------
  // Recording a merged offset

  /** The page offset of an rmap_item in its vma: `(address - base_addr) >> PAGE_SHIFT`;
      the flag bits below the page are shifted out. */
  function Offset(address: Addr, base: Addr): (off: nat)
    requires base <= address
    ensures base + off * PAGE_SIZE <= address < base + (off + 1) * PAGE_SIZE
  {
    (address - base) / PAGE_SIZE
  }

  /** The first long filter of a file region is allocated on its first
      recorded offset; a failed allocation skips the region. */
  predicate AllocSkips(r: Region, allocOk: bool) {
    IsFile(r.rtype) && r.filterCnt == 0 && r.len > SINGLE_FILTER_LEN && !r.hasArray && !allocOk
  }

  /** The region part of stable_tree_append_region, with the bit of an
      offset past the end of the filter left unwritten (the merge is still
      counted). The stable_tree_append that follows the `skip` label is
      StableTree.StableTreeAppend. */
  function AppendRegion(r: Region, offset: nat, allocOk: bool): (a: Region)
    requires IsFile(r.rtype) && r.len > SINGLE_FILTER_LEN && r.filterCnt != 0 ==> r.hasArray
    ensures a.rtype == r.rtype && a.len == r.len && a.conflict == r.conflict
    ensures FilterWf(r) ==> FilterWf(a)
    ensures a == r <==> AllocSkips(r, allocOk)
    ensures a != r ==> a.mergeCnt == r.mergeCnt + 1
    ensures !IsFile(r.rtype) ==> a.bits == r.bits && a.filterCnt == r.filterCnt
    ensures IsFile(r.rtype) && a != r && offset < r.len * BITS_PER_LONG ==> a.bits == r.bits + {offset}
    ensures offset >= r.len * BITS_PER_LONG ==> a.bits == r.bits
    // filter_cnt moves exactly with the number of set bits
    ensures a.filterCnt - r.filterCnt == |a.bits| - |r.bits|
    ensures IsFile(r.rtype) && a != r && r.len > SINGLE_FILTER_LEN ==> a.hasArray
  {
    if IsFile(r.rtype) then
      if AllocSkips(r, allocOk) then r
      else
        var hasArray := r.hasArray || (r.filterCnt == 0 && r.len > SINGLE_FILTER_LEN);
        var record := offset < r.len * BITS_PER_LONG && offset !in r.bits;
        r.(hasArray := hasArray, bits := if record then r.bits + {offset} else r.bits,
           filterCnt := if record then r.filterCnt + 1 else r.filterCnt,
           mergeCnt := r.mergeCnt + 1)
    else
      r.(mergeCnt := r.mergeCnt + 1)
  }

  /** What stable_tree_append_region as written does to the region: either a
      region, or a write of test_and_set_bit past the end of the filter. */
  datatype Written = Kept(region: Region) | Overrun

  /** stable_tree_append_region as written: the offset's bit is set with no
      bound check, so an offset past the filter writes outside it. */
  function AppendRegionAsWritten(r: Region, offset: nat, allocOk: bool): (w: Written)
    requires IsFile(r.rtype) && r.len > SINGLE_FILTER_LEN && r.filterCnt != 0 ==> r.hasArray
    ensures w.Overrun? <==> IsFile(r.rtype) && !AllocSkips(r, allocOk) && offset >= r.len * BITS_PER_LONG
    ensures w.Kept? ==> w.region == AppendRegion(r, offset, allocOk)
  {
    if IsFile(r.rtype) && !AllocSkips(r, allocOk) && offset >= r.len * BITS_PER_LONG then Overrun
    else Kept(AppendRegion(r, offset, allocOk))
  }

  /** A one-word file region whose vma has grown to 128 pages, with the
      allocation of the longer filter failing: the scan still uses the
      region, and a merge of the vma's page 100 sets bit 100 of a 64-bit
      filter as written, while the corrected append counts the merge and
      keeps the filter within its bounds. */
  lemma FailedGrowOverruns()
    ensures var r := Region(File1, 0, 0, 0, SINGLE_FILTER_LEN, false, {});
      var c := FindRegion(Some(r), 128, false);
      && c.scan == UseRegion && c.region.Some?
      && c.region.value.len == SINGLE_FILTER_LEN
      && Offset(100 * PAGE_SIZE, 0) < 128
      && AppendRegionAsWritten(c.region.value, Offset(100 * PAGE_SIZE, 0), true) == Overrun
      && FilterWf(AppendRegion(c.region.value, Offset(100 * PAGE_SIZE, 0), true))
      && AppendRegion(c.region.value, Offset(100 * PAGE_SIZE, 0), true).mergeCnt == 1
  {
    assert FilterLen(128) == 2;
    var r := Region(File1, 0, 0, 0, SINGLE_FILTER_LEN, false, {});
    var r1 := r.(conflict := 1);
    assert FindRegion(Some(r), 128, false) == Choice(Some(r1), UseRegion);
    assert Offset(100 * PAGE_SIZE, 0) == 100;
  }

  /** The region after successive merges at `offsets`, every allocation succeeding. */
  function AppendAll(r: Region, offsets: seq<nat>): (a: Region)
    requires IsFile(r.rtype)
    requires r.len > SINGLE_FILTER_LEN && r.filterCnt != 0 ==> r.hasArray
    ensures a.rtype == r.rtype && a.len == r.len
    ensures a.len > SINGLE_FILTER_LEN && a.filterCnt != 0 ==> a.hasArray
    ensures |offsets| > 0 && a.len > SINGLE_FILTER_LEN ==> a.hasArray
    decreases |offsets|
  {
    if |offsets| == 0 then r
    else
      var prev := AppendAll(r, offsets[..|offsets| - 1]);
      AppendRegion(prev, offsets[|offsets| - 1], true)
  }

  /** The distinct offsets of `s`. */
  function Distinct(s: seq<nat>): (d: set<nat>)
    ensures forall x :: x in d <==> x in s
    decreases |s|
  {
    if |s| == 0 then {}
    else
      var init := s[..|s| - 1];
      assert s == init + [s[|s| - 1]];
      Distinct(init) + {s[|s| - 1]}
  }

  /** Starting from an empty filter, filter_cnt ends as the number of distinct
      offsets merged, and every merge counts toward merge_cnt. */
  lemma {:induction false} AppendAllCountsDistinct(r: Region, offsets: seq<nat>)
    requires IsFile(r.rtype) && r.bits == {} && r.filterCnt == 0
    requires forall i :: 0 <= i < |offsets| ==> offsets[i] < r.len * BITS_PER_LONG
    ensures AppendAll(r, offsets).bits == Distinct(offsets)
    ensures AppendAll(r, offsets).filterCnt == |Distinct(offsets)|
    ensures AppendAll(r, offsets).mergeCnt == r.mergeCnt + |offsets|
    decreases |offsets|
  {
    if |offsets| > 0 {
      var init := offsets[..|offsets| - 1];
      var last := offsets[|offsets| - 1];
      assert forall i :: 0 <= i < |init| ==> init[i] == offsets[i];
      AppendAllCountsDistinct(r, init);
      var prev := AppendAll(r, init);
      var a := AppendRegion(prev, last, true);
      assert AppendAll(r, offsets) == a;
      assert a != prev;
    }
  }

  // ---------------------------------------------------------------------
  // Skipping to the next recorded offset

  /** `k` is what find_next_bit returns for `bits` below `nbits` from `from`:
      the first set bit at or after `from`, or `nbits` when there is none. */
  predicate FirstBitFrom(bits: set<nat>, from: nat, nbits: nat, k: nat) {
    && k <= nbits
    && (k < nbits ==> k in bits && from <= k)
    && (forall b :: b in bits && from <= b < nbits ==> k <= b)
  }

  /** find_next_bit has one answer. */
  lemma FirstBitUnique(bits: set<nat>, from: nat, nbits: nat, k1: nat, k2: nat)
    requires FirstBitFrom(bits, from, nbits, k1) && FirstBitFrom(bits, from, nbits, k2)
    ensures k1 == k2
  {
    if k1 < nbits { assert k2 <= k1; }
    if k2 < nbits { assert k1 <= k2; }
  }

  /** lksm_get_next_filtered_address: the address of the first recorded
      offset at or after the page of `addr`, or the end of the filter's
      coverage when no offset is recorded there. */
  method NextFilteredAddress(r: Region, addr: Addr, base: Addr) returns (next: Addr)
    requires base <= addr
    ensures base <= next && (next - base) % PAGE_SIZE == 0
    ensures FirstBitFrom(r.bits, (addr - base) / PAGE_SIZE, r.len * BITS_PER_LONG, (next - base) / PAGE_SIZE)
  {
    var curr := (addr - base) / PAGE_SIZE;
    var nbits := r.len * BITS_PER_LONG;
    var k := curr;
    if k >= nbits {
      k := nbits;
    } else {
      while k < nbits && k !in r.bits
        invariant curr <= k <= nbits
        invariant forall b :: b in r.bits && curr <= b < k ==> false
        decreases nbits - k
      {
        k := k + 1;
      }
    }
    next := k * PAGE_SIZE + base;
    assert (next - base) / PAGE_SIZE == k;
  }

  // ---------------------------------------------------------------------
  // Choosing the region of the next vma

  /** What ksm_scan.region becomes: the shared unknown region, the vma's
      region, or (as written, on a conflict) whatever it was before. */
  datatype ScanRegion = UseUnknown | UseRegion | KeepPrevious

  /** The vma's region after the decision, and the region the scan uses. */
  datatype Choice = Choice(region: Option<Region>, scan: ScanRegion)

  /** The region step of lksm_find_next_vma as written: `region` is the
      vma's region (cached or found), `size` its page count, `allocOk` the
      outcome of kcalloc for a grown filter. */
  function FindRegionAsWritten(region: Option<Region>, size: nat, allocOk: bool): (c: Choice)
    ensures c.region.Some? <==> region.Some?
    ensures c.scan == KeepPrevious ==> c.region.Some? && c.region.value.rtype == Conflict
  {
    if region.None? then Choice(None, UseUnknown)
    else
      var r := region.value;
      if r.rtype == Conflict then Choice(region, UseUnknown)
      else if !IsSized(r.rtype) then Choice(region, UseRegion)
      else
        var len := FilterLen(size);
        if len > SINGLE_FILTER_LEN && r.len != len then
          var r1 := r.(conflict := r.conflict + 1);
          if r1.conflict > 1 then
            // the `break` leaves the loop past the `skip` label
            Choice(Some(r1.(rtype := Conflict, hasArray := false, bits := {}, len := SINGLE_FILTER_LEN)), KeepPrevious)
          else if r.len < len then
            if !allocOk then Choice(Some(r1), UseRegion)
            else
              var bits := if r.filterCnt > 0 then r.bits else {};
              Choice(Some(r1.(hasArray := true, bits := bits, len := len)), UseRegion)
          else Choice(Some(r1), UseRegion)
        else Choice(region, UseRegion)
  }

  /** lksm_find_next_vma with a conflicted region handed to the scan as the
      unknown region, as the assignment `region = &unknown_region` intends. */
  function FindRegion(region: Option<Region>, size: nat, allocOk: bool): (c: Choice)
    ensures c.region.Some? <==> region.Some?
    ensures c.scan != KeepPrevious
    // the scan goes unfiltered exactly when there is no region or it is conflicted
    ensures c.scan == UseUnknown <==> c.region.None? || c.region.value.rtype == Conflict
    ensures region.Some? && FilterWf(region.value) ==> FilterWf(c.region.value)
    // a region that stays filtered has a filter covering every page of the vma
    ensures region.Some? && IsSized(c.region.value.rtype) && region.value.len >= SINGLE_FILTER_LEN && allocOk
            ==> c.region.value.len * BITS_PER_LONG >= size
  {
    var c := FindRegionAsWritten(region, size, allocOk);
    if c.scan == KeepPrevious then Choice(c.region, UseUnknown) else c
  }

  /** A second length mismatch of a sized region turns it into a conflicted
      region with an empty single-word filter. */
  lemma SecondMismatchConflicts(r: Region, size: nat, allocOk: bool)
    requires IsSized(r.rtype) && r.conflict >= 1
    requires FilterLen(size) > SINGLE_FILTER_LEN && r.len != FilterLen(size)
    ensures var c := FindRegion(Some(r), size, allocOk);
      && c.scan == UseUnknown
      && c.region == Some(r.(rtype := Conflict, conflict := r.conflict + 1, hasArray := false,
                             bits := {}, len := SINGLE_FILTER_LEN))
  {
  }

  /** A first mismatch to a longer filter grows it, keeping the recorded offsets. */
  lemma FirstMismatchGrows(r: Region, size: nat)
    requires IsSized(r.rtype) && r.conflict <= 0 && FilterWf(r)
    requires r.len < FilterLen(size) && FilterLen(size) > SINGLE_FILTER_LEN
    ensures var c := FindRegion(Some(r), size, true);
      && c.scan == UseRegion
      && c.region == Some(r.(conflict := r.conflict + 1, hasArray := true, len := FilterLen(size)))
  {
    if r.filterCnt <= 0 {
      assert r.bits == {};
    }
  }

  /** The code as written differs from the corrected choice only on the
      escalation to a conflict. */
  lemma AsWrittenDiffersOnlyOnConflict(region: Option<Region>, size: nat, allocOk: bool)
    ensures var w := FindRegionAsWritten(region, size, allocOk);
      && FindRegion(region, size, allocOk).region == w.region
      && (w.scan != KeepPrevious ==> FindRegion(region, size, allocOk) == w)
  {
  }

  /** A file region of one word whose vma has grown to 128 pages after an
      earlier mismatch: the corrected scan goes unfiltered, while the code as
      written leaves ksm_scan.region at its previous value (NULL at the start
      of a slot's scan, which __scan_next_rmap_item then dereferences). */
  lemma ConflictLeavesScanRegion()
    ensures var r := Region(File1, 0, 0, 1, SINGLE_FILTER_LEN, false, {});
      && FindRegionAsWritten(Some(r), 128, true).scan == KeepPrevious
      && FindRegion(Some(r), 128, true).scan == UseUnknown
  {
    assert FilterLen(128) == 2;
  }
}
