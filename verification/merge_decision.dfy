/**
 The decision taken by cmp_and_merge_page of mm/lksm.c for one scanned page.
 The page-table work it relies on (stable and unstable tree searches, the
 merges of page table entries, break_cow, split_huge_page) is abstracted to
 the outcomes it reports; the decision is the sequence of effects taken.
 */
module MergeDecision {
  import opened KsmDefs

  /** Which rmap_item an effect is about: the scanned one or the one found in
      the unstable tree. */
  datatype Who = Scanned | TreeItem

  datatype Effect =
    | RemoveFromTree              // remove_rmap_item_from_tree(rmap_item)
    | MergeWithKsm                // try_to_merge_with_ksm_page succeeded on a stable hit
    | RecordChecksum(c: nat)      // rmap_item->oldchecksum = checksum
    | MergeZero                   // merged with the zero page (or the vma was gone)
    | InsertUnstable              // unstable_tree_search_insert linked the item
    | MergeFirst                  // the scanned page became a KSM page
    | MergeSecond                 // the tree page was merged into it
    | BreakCow(who: Who)          // break_cow
    | InsertStable                // stable_tree_insert returned a node
    | Append(who: Who, bypass: bool) // stable_tree_append
    | SplitHuge                   // split_huge_page

  /** Outcome of stable_tree_search: nothing, -EBUSY, or the KSM page of node `kpfn`. */
  datatype StableSearch = SMiss | SBusy | SHit(kpfn: Kpfn)

  /** Outcome of unstable_tree_search_insert: an equal item was found, the
      item was inserted, or neither happened. */
  datatype UnstableSearch = UHit | UInserted | UNone

  /** Everything cmp_and_merge_page learns from outside its own logic. */
  datatype Inputs = Inputs(
    ownNode: Option<Kpfn>,        // page_stable_node(page)
    itemHead: Option<Kpfn>,       // rmap_item->head
    ownNodeCandidate: bool,       // is_page_sharing_candidate(stable_node)
    stable: StableSearch,
    mergeWithKsmOk: bool,         // try_to_merge_with_ksm_page on the stable hit
    scanRound: nat,
    initialRound: nat,
    oldchecksum: nat,             // bit 0 is the frozen bit
    checksum: nat,                // calc_checksum(page)
    useZeroPages: bool,
    zeroChecksum: nat,
    zeroMergeErr: bool,           // the merge with the zero page failed
    unstable: UnstableSearch,
    mergeFirstOk: bool,           // try_to_merge_with_ksm_page(rmap_item, page, NULL)
    mergeSecondOk: bool,          // try_to_merge_with_ksm_page(tree_rmap_item, tree_page, page)
    insertOk: bool,               // stable_tree_insert returned a node
    split: bool,                  // both pages in the same compound page
    trylockOk: bool)              // trylock_page(page)

  /** The page is already mapped through the stable node the item hangs off. */
  predicate AlreadyMerged(inp: Inputs) {
    inp.ownNode.Some? && inp.itemHead == inp.ownNode
  }

  /** The checksum is computed (and compared with the old one) only in the
      first rounds and for an item that is not frozen. */
  predicate ChecksumComputed(inp: Inputs) {
    inp.scanRound < inp.initialRound && inp.oldchecksum % 2 == 0
  }

  predicate Merged(e: seq<Effect>, who: Who) {
    match who
    case Scanned => MergeFirst in e || MergeWithKsm in e
    case TreeItem => MergeSecond in e
  }

  predicate Appended(e: seq<Effect>, who: Who) {
    Append(who, false) in e || Append(who, true) in e
  }

  /** Every page turned into a mapping of a KSM page ends up either listed on
      a stable node or broken out again, and only merged pages are listed. */
  predicate NoOrphanMerge(e: seq<Effect>) {
    Settled(e, Scanned) && Settled(e, TreeItem)
  }

  predicate Settled(e: seq<Effect>, who: Who) {
    && (Merged(e, who) ==> Appended(e, who) || BreakCow(who) in e)
    && (Appended(e, who) ==> Merged(e, who) && BreakCow(who) !in e)
  }

  /** The merge of two unstable pages, from try_to_merge_two_pages on. */
  function MergePair(inp: Inputs): (e: seq<Effect>)
    ensures NoOrphanMerge(e)
    ensures MergeSecond in e ==> MergeFirst in e
    ensures Appended(e, TreeItem) <==> Appended(e, Scanned)
    ensures InsertStable in e <==> inp.mergeFirstOk && inp.mergeSecondOk && inp.insertOk
    ensures RemoveFromTree !in e && MergeZero !in e
  {
    if !inp.mergeFirstOk then
      if inp.split && inp.trylockOk then [SplitHuge] else []
    else if !inp.mergeSecondOk then
      var e := [MergeFirst, BreakCow(Scanned)];
      assert forall x :: x in e ==> x == MergeFirst || x == BreakCow(Scanned);
      if inp.split && inp.trylockOk then e + [SplitHuge] else e
    else if inp.insertOk then
      var e := [MergeFirst, MergeSecond, InsertStable, Append(TreeItem, false), Append(Scanned, false)];
      assert e[3] == Append(TreeItem, false) && e[4] == Append(Scanned, false);
      assert forall x :: x in e ==> !x.BreakCow?;
      e
    else
      var e := [MergeFirst, MergeSecond, BreakCow(TreeItem), BreakCow(Scanned)];
      assert forall x :: x in e ==> !x.Append? && !x.InsertStable?;
      e
  }

  /** cmp_and_merge_page with the zero-page test made against `zeroTest`. */
  function Decide(inp: Inputs, zeroTest: nat): (e: seq<Effect>)
    ensures e == [] <==> AlreadyMerged(inp)
    ensures e != [] ==> e[0] == RemoveFromTree && RemoveFromTree !in e[1..]
    ensures NoOrphanMerge(e)
  {
    // The second early return (the search handing back the page itself to
    // an item already on its node) only differs from the first for a node on
    // migrate_nodes, which this model leaves out.
    if AlreadyMerged(inp) then []
    else
      var rest := AfterRemoval(inp, zeroTest);
      var e := [RemoveFromTree] + rest;
      assert e[1..] == rest;
      SettledCons(RemoveFromTree, rest);
      e
  }

  /** What cmp_and_merge_page does once the item is out of its tree. */
  function AfterRemoval(inp: Inputs, zeroTest: nat): (rest: seq<Effect>)
    ensures RemoveFromTree !in rest
    ensures NoOrphanMerge(rest)
  {
    var bypass := inp.ownNode.Some? && !inp.ownNodeCandidate;
    match inp.stable
    case SBusy => []
    case SHit(k) =>
      if inp.mergeWithKsmOk then
        var e := [MergeWithKsm, Append(Scanned, bypass)];
        assert forall x :: x in e ==> x == MergeWithKsm || x == Append(Scanned, bypass);
        e
      else []
    case SMiss =>
      if ChecksumComputed(inp) && inp.oldchecksum != inp.checksum then [RecordChecksum(inp.checksum)]
      else if inp.useZeroPages && zeroTest == inp.zeroChecksum && !inp.zeroMergeErr then [MergeZero]
      else
        match inp.unstable
        case UNone => []
        case UInserted => [InsertUnstable]
        case UHit => MergePair(inp)
  }

  /** Effects that neither merge, append nor break do not change whether
      the merges are settled. */
  lemma SettledCons(x: Effect, rest: seq<Effect>)
    requires !x.MergeWithKsm? && !x.MergeFirst? && !x.MergeSecond? && !x.Append? && !x.BreakCow?
    requires NoOrphanMerge(rest)
    ensures NoOrphanMerge([x] + rest)
  {
    var e := [x] + rest;
    forall y ensures y in e <==> y == x || y in rest {
    }
  }

  /** cmp_and_merge_page as written: when the checksum was not computed, the
      zero-page test reads the uninitialised `checksum`, here `stale`. */
  function CmpAndMergePageAsWritten(inp: Inputs, stale: nat): (e: seq<Effect>)
    ensures e == [] <==> AlreadyMerged(inp)
    ensures NoOrphanMerge(e)
  {
    Decide(inp, if ChecksumComputed(inp) then inp.checksum else stale)
  }

  /** cmp_and_merge_page with the checksum always computed before the
      zero-page test. */
  function CmpAndMergePage(inp: Inputs): (e: seq<Effect>)
    ensures e == [] <==> AlreadyMerged(inp)
    ensures e != [] ==> e[0] == RemoveFromTree
    ensures NoOrphanMerge(e)
  {
    Decide(inp, inp.checksum)
  }

  // ---------------------------------------------------------------------
  // Paths of the decision

  /** A page not yet merged is first taken out of its tree. */
  lemma DecideUnfolds(inp: Inputs)
    requires !AlreadyMerged(inp)
    ensures CmpAndMergePage(inp) == [RemoveFromTree] + AfterRemoval(inp, inp.checksum)
  {
  }

  /** A stable hit merges the page into the KSM page and appends the item,
      with the bypass when the page's own node could take no more sharing. */
  lemma StableHitAppends(inp: Inputs)
    requires !AlreadyMerged(inp) && inp.stable.SHit? && inp.mergeWithKsmOk
    ensures CmpAndMergePage(inp) ==
      [RemoveFromTree, MergeWithKsm,
       Append(Scanned, inp.ownNode.Some? && !inp.ownNodeCandidate)]
  {
  }

  /** A busy stable tree or a failed merge with the stable page only takes the
      item out of its tree. */
  lemma StableFailureOnlyRemoves(inp: Inputs)
    requires !AlreadyMerged(inp)
    requires inp.stable.SBusy? || (inp.stable.SHit? && !inp.mergeWithKsmOk)
    ensures CmpAndMergePage(inp) == [RemoveFromTree]
  {
  }

  /** In the first rounds a changed checksum is only recorded: nothing is
      merged or inserted. */
  lemma ChangedChecksumOnlyRecords(inp: Inputs)
    requires !AlreadyMerged(inp) && inp.stable.SMiss?
    requires ChecksumComputed(inp) && inp.oldchecksum != inp.checksum
    ensures CmpAndMergePage(inp) == [RemoveFromTree, RecordChecksum(inp.checksum)]
    ensures CmpAndMergePageAsWritten(inp, 0) == CmpAndMergePage(inp)
  {
  }

  /** A zero page is merged only when its checksum is the zero page's. */
  lemma ZeroMergeNeedsZeroChecksum(inp: Inputs)
    ensures MergeZero in CmpAndMergePage(inp) ==> inp.useZeroPages && inp.checksum == inp.zeroChecksum
  {
    if !AlreadyMerged(inp) {
      DecideUnfolds(inp);
      var rest := AfterRemoval(inp, inp.checksum);
      assert MergeZero in CmpAndMergePage(inp) <==> MergeZero in rest;
    }
  }

  /** Two pages found equal through the unstable tree end up both listed on a
      new stable node, or both broken out again. */
  lemma PairMergeAllOrNothing(inp: Inputs)
    requires !AlreadyMerged(inp) && inp.stable.SMiss? && inp.unstable.UHit?
    requires !(ChecksumComputed(inp) && inp.oldchecksum != inp.checksum)
    requires !(inp.useZeroPages && inp.checksum == inp.zeroChecksum && !inp.zeroMergeErr)
    requires inp.mergeFirstOk && inp.mergeSecondOk
    ensures var e := CmpAndMergePage(inp);
      && (inp.insertOk ==> e[|e| - 2..] == [Append(TreeItem, false), Append(Scanned, false)])
      && (!inp.insertOk ==> e[|e| - 2..] == [BreakCow(TreeItem), BreakCow(Scanned)])
  {
    DecideUnfolds(inp);
    assert AfterRemoval(inp, inp.checksum) == MergePair(inp);
  }

  // ---------------------------------------------------------------------
  // The uninitialised checksum

  /** When the checksum is computed, the code as written decides as the
      corrected one does. */
  lemma AsWrittenAgreesWhenComputed(inp: Inputs, stale: nat)
    requires ChecksumComputed(inp)
    ensures CmpAndMergePageAsWritten(inp, stale) == CmpAndMergePage(inp)
  {
  }

  /** A zero page scanned after the first rounds: the corrected decision
      merges it with the zero page, while the code as written lets the
      uninitialised variable decide, and with any other value sends the page
      to the unstable tree. */
  lemma UninitialisedChecksumDecides(zero: nat, stale: nat)
    requires stale != zero
    ensures var inp := Inputs(None, None, true, SMiss, false, 3, 3, 0, zero, true, zero, false,
                              UInserted, false, false, false, false, false);
      && CmpAndMergePage(inp) == [RemoveFromTree, MergeZero]
      && CmpAndMergePageAsWritten(inp, zero) == [RemoveFromTree, MergeZero]
      && CmpAndMergePageAsWritten(inp, stale) == [RemoveFromTree, InsertUnstable]
  {
  }
}
