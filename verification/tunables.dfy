/**
 The validation done by the sysfs store handlers of mm/lksm.c for the run
 mode, max_page_sharing, one_shot_scanning and scan_boost, and the clamp of
 the pages_volatile statistic. Parsing the written string is abstracted to
 its outcome; the work a store triggers (unmerging everything, removing the
 stable nodes, waking the crawler) is reduced to its reported outcome or a
 flag.
 */
module Tunables {
  import opened KsmDefs
  import StableTree
  import UnstableTree

  const EINVAL: int := 22
  const EBUSY: int := 16

  const KSM_RUN_STOP: nat := 0
  const KSM_RUN_MERGE: nat := 1
  const KSM_RUN_UNMERGE: nat := 2
  const KSM_RUN_OFFLINE: nat := 4
  const KSM_RUN_ONESHOT: nat := 8

  /** Values of ksm_one_shot_scanning. */
  const LKSM_SCAN_NONE: int := 0
  const LKSM_SCAN_PARTIAL: int := 1
  const LKSM_SCAN_FULL: int := 2

  const BOOST_MIN: int := 100
  const BOOST_MAX: int := 10000

  /** What a store returns: the byte count (the write is taken) or a negative errno. */
  datatype Status = Accepted | Rejected(err: int)

  /** The outcome of kstrtoint on the written string. */
  datatype Parsed = ParseError(err: int) | Value(v: int)

  // ---------------------------------------------------------------------
  // run

  /** What `run` reads back: the one-shot mode alone, or the run flags. */
  function RunShow(run: nat): (shown: nat)
    ensures shown <= run
    ensures run <= KSM_RUN_ONESHOT ==> shown == run
    ensures HasBit(run, KSM_RUN_ONESHOT) ==> shown == KSM_RUN_ONESHOT
  {
    if HasBit(run, KSM_RUN_ONESHOT) then KSM_RUN_ONESHOT else run
  }

  datatype RunResult = RunResult(run: nat, status: Status, wake: bool)

  /** run_store: `parsed` is kstrtouint's value (None when it fails),
      `unmergeErr` what unmerge_and_remove_all_rmap_items returns (0 or a
      negative errno). */
  function RunStore(run: nat, parsed: Option<nat>, unmergeErr: int): (r: RunResult)
    requires unmergeErr <= 0
    // anything unparsable or above KSM_RUN_ONESHOT is refused and changes nothing
    ensures parsed.None? || parsed.value > KSM_RUN_ONESHOT ==> r == RunResult(run, Rejected(-EINVAL), false)
    // a failed unmerge stops the daemon and reports the error
    ensures r.status.Rejected? && parsed.Some? && parsed.value <= KSM_RUN_ONESHOT
            ==> r.run == KSM_RUN_STOP && r.status.err == unmergeErr && unmergeErr < 0
    // a taken write reads back as written; one-shot mode also merges
    ensures r.status.Accepted? ==> parsed.Some? && RunShow(r.run) == parsed.value
    ensures r.status.Accepted? && parsed.value == KSM_RUN_ONESHOT && run != KSM_RUN_ONESHOT
            ==> HasBit(r.run, KSM_RUN_MERGE)
    ensures r.wake <==> r.status.Accepted? && HasBit(r.run, KSM_RUN_MERGE)
  {
    if parsed.None? || parsed.value > KSM_RUN_ONESHOT then RunResult(run, Rejected(-EINVAL), false)
    else
      var flags := parsed.value;
      if run == flags then RunResult(run, Accepted, HasBit(run, KSM_RUN_MERGE))
      else
        var run' := if flags == KSM_RUN_ONESHOT then KSM_RUN_MERGE + KSM_RUN_ONESHOT else flags;
        if HasBit(flags, KSM_RUN_UNMERGE) && unmergeErr != 0 then
          RunResult(KSM_RUN_STOP, Rejected(unmergeErr), false)
        else
          RunResult(run', Accepted, HasBit(run', KSM_RUN_MERGE))
  }

  /** Writing a value the daemon already runs with is always taken and
      changes nothing. */
  lemma RunStoreSameIsNoOp(run: nat, unmergeErr: int)
    requires run <= KSM_RUN_ONESHOT && unmergeErr <= 0
    ensures RunStore(run, Some(run), unmergeErr).run == run
    ensures RunStore(run, Some(run), unmergeErr).status == Accepted
  {
  }

  /** Every accepted value, including those with the UNMERGE bit when the
      unmerge succeeds, reads back as written. */
  lemma RunStoreRoundTrip(run: nat, flags: nat)
    requires flags <= KSM_RUN_ONESHOT
    ensures RunStore(run, Some(flags), 0).status == Accepted
    ensures RunShow(RunStore(run, Some(flags), 0).run) == flags
  {
  }

  // ---------------------------------------------------------------------
  // max_page_sharing

  datatype Knob = Knob(value: int, status: Status)

  /** max_page_sharing_store: `current` is ksm_max_page_sharing,
      `removeFails` says remove_all_stable_nodes left nodes behind. */
  function MaxPageSharingStore(current: int, parsed: Parsed, pagesShared: int, removeFails: bool): (k: Knob)
    requires parsed.ParseError? ==> parsed.err < 0
    ensures current >= 2 ==> k.value >= 2
    ensures k.value != current ==> parsed.Value? && k.value == parsed.v && k.status.Accepted?
    ensures parsed.ParseError? ==> k == Knob(current, Rejected(parsed.err))
    ensures k.status.Accepted? <==>
      && parsed.Value? && parsed.v >= 2
      && (parsed.v == current || (pagesShared == 0 && !removeFails))
    // the knob cannot change while any KSM page exists
    ensures parsed.Value? ==>
      (k.status == Rejected(-EBUSY) <==> parsed.v >= 2 && parsed.v != current && (pagesShared != 0 || removeFails))
  {
    match parsed
    case ParseError(e) => Knob(current, Rejected(e))
    case Value(knob) =>
      if knob < 2 then Knob(current, Rejected(-EINVAL))
      else if current == knob then Knob(current, Accepted)
      else if pagesShared != 0 || removeFails then Knob(current, Rejected(-EBUSY))
      else Knob(knob, Accepted)
  }

  /** Storing the value just taken again is a no-op that is always taken,
      whatever has been merged since. */
  lemma MaxPageSharingIdempotent(current: int, knob: int, pagesShared: int, removeFails: bool,
                                 pagesShared2: int, removeFails2: bool)
    requires MaxPageSharingStore(current, Value(knob), pagesShared, removeFails).status.Accepted?
    ensures var k := MaxPageSharingStore(current, Value(knob), pagesShared, removeFails);
      MaxPageSharingStore(k.value, Value(knob), pagesShared2, removeFails2) == Knob(k.value, Accepted)
  {
  }

  // ---------------------------------------------------------------------
  // one_shot_scanning

  datatype OneShot = OneShot(scanning: int, status: Status, wake: bool)

  /** one_shot_scanning_store: a partial or full one-shot scan is requested
      only when none is in progress (the atomic compare-and-exchange from
      LKSM_SCAN_NONE). */
  function OneShotScanningStore(scanning: int, parsed: Parsed): (o: OneShot)
    ensures o.status.Accepted? <==>
      parsed.Value? && (parsed.v == LKSM_SCAN_PARTIAL || parsed.v == LKSM_SCAN_FULL) && scanning == LKSM_SCAN_NONE
    ensures o.status.Accepted? ==> o.scanning == parsed.v && o.wake
    ensures o.status.Rejected? ==> o == OneShot(scanning, Rejected(-EINVAL), false)
  {
    if parsed.ParseError? || (parsed.v != LKSM_SCAN_PARTIAL && parsed.v != LKSM_SCAN_FULL) then
      OneShot(scanning, Rejected(-EINVAL), false)
    else if scanning == LKSM_SCAN_NONE then OneShot(parsed.v, Accepted, true)
    else OneShot(scanning, Rejected(-EINVAL), false)
  }

  predicate ScanModeValid(scanning: int) {
    LKSM_SCAN_NONE <= scanning <= LKSM_SCAN_FULL
  }

  /** The scan mode stays one of the three values, and a second request
      made before the scan finishes is refused. */
  lemma OneShotScanningExclusive(scanning: int, first: Parsed, second: Parsed)
    requires ScanModeValid(scanning)
    ensures ScanModeValid(OneShotScanningStore(scanning, first).scanning)
    ensures OneShotScanningStore(scanning, first).status.Accepted? ==>
      var after := OneShotScanningStore(scanning, first).scanning;
      OneShotScanningStore(after, second).status == Rejected(-EINVAL)
  {
  }

  // ---------------------------------------------------------------------
  // scan_boost

  datatype Boost = Boost(pages: int, status: Status)

  /** scan_boost_store: lksm_boosted_pages_to_scan takes values from 100 to 10000. */
  function ScanBoostStore(pages: int, parsed: Parsed): (b: Boost)
    ensures b.status.Accepted? <==> parsed.Value? && BOOST_MIN <= parsed.v <= BOOST_MAX
    ensures b.status.Accepted? ==> b.pages == parsed.v
    ensures b.status.Rejected? ==> b == Boost(pages, Rejected(-EINVAL))
  {
    if parsed.ParseError? || parsed.v < BOOST_MIN || parsed.v > BOOST_MAX then Boost(pages, Rejected(-EINVAL))
    else Boost(parsed.v, Accepted)
  }

  /** From its initial value of 100, the boost stays within its range
      whatever is written. */
  lemma {:induction false} ScanBoostStaysInRange(pages: int, writes: seq<Parsed>)
    requires BOOST_MIN <= pages <= BOOST_MAX
    ensures BOOST_MIN <= BoostAfter(pages, writes) <= BOOST_MAX
    decreases |writes|
  {
    if |writes| > 0 {
      ScanBoostStaysInRange(ScanBoostStore(pages, writes[0]).pages, writes[1..]);
    }
  }

  /** The boost after a sequence of writes. */
  function BoostAfter(pages: int, writes: seq<Parsed>): int
    decreases |writes|
  {
    if |writes| == 0 then pages else BoostAfter(ScanBoostStore(pages, writes[0]).pages, writes[1..])
  }

  // ---------------------------------------------------------------------
  // pages_volatile

  /** The rmap_items counted in neither tree: every item less the pages
      shared, sharing and unshared. */
  function Unsettled(c: Counters): int {
    c.rmapItems - c.pagesShared - c.pagesSharing - c.pagesUnshared
  }

  /** pages_volatile_show: the rmap_items in no tree, with a negative
      difference (an unlocked read of the counters) shown as 0. */
  function PagesVolatile(c: Counters): (v: int)
    ensures v >= 0
    ensures c.rmapItems - c.pagesShared - c.pagesSharing - c.pagesUnshared >= 0
            ==> v == c.rmapItems - c.pagesShared - c.pagesSharing - c.pagesUnshared
    ensures c.rmapItems - c.pagesShared - c.pagesSharing - c.pagesUnshared < 0 ==> v == 0
  {
    var volatile := Unsettled(c);
    if volatile < 0 then 0 else volatile
  }

  /** A page linked into the unstable tree leaves the volatile pages: the
      statistic drops by one unless the read was already clamped at 0; a
      search that inserts nothing leaves it alone. */
  lemma UnstableInsertSettles(t: UnstableTree.UTree, c: Counters, item: RmapItem, x: Content,
                              walkOk: bool, scanRound: nat)
    requires UnstableTree.Sorted(t) && UnstableTree.Untagged(item.address)
    ensures var r := UnstableTree.UnstableTreeSearchInsert(t, c, item, x, walkOk, scanRound);
      && (r.outcome.Inserted? && Unsettled(c) >= 1 ==> PagesVolatile(r.counters) == PagesVolatile(c) - 1)
      && (r.outcome.Inserted? && Unsettled(c) < 1 ==> PagesVolatile(r.counters) == 0)
      && (!r.outcome.Inserted? ==> PagesVolatile(r.counters) == PagesVolatile(c))
  {
  }

  /** Taking an unstable item out of the tree makes its page volatile again. */
  lemma UnstableRemoveUnsettles(t: UnstableTree.UTree, c: Counters, item: RmapItem)
    requires HasUnstableFlag(item.address)
    ensures var r := UnstableTree.RemoveUnstableRmapItem(t, c, item);
      Unsettled(c) >= 0 ==> PagesVolatile(r.counters) == PagesVolatile(c) + 1
  {
  }

  /** Hanging an item off a stable node settles one volatile page, whether it
      counts as the node's shared page or as a page sharing it. */
  lemma StableAppendSettles(t: StableTree.Tree, c: Counters, ref: StableTree.Ref, item: RmapItem,
                            bypass: bool, maxSharing: int)
    requires StableTree.ValidRef(t, ref)
    ensures var res := StableTree.StableTreeAppend(t, c, ref, item, bypass, maxSharing);
      res.Done? && Unsettled(c) >= 1 ==> PagesVolatile(res.value.counters) == PagesVolatile(c) - 1
  {
  }
}
