/**
 Scheduler bookkeeping of mm/lksm.c: the state bits of an mm_slot, their
 transitions when a slot is created, when its task is frozen or thawed and
 when the scanner retires it at the end of its scan, the three-cell window of
 recent merge counts, and the VIP list of slots ordered by merge count.
 */
module Scheduler {
  import opened KsmDefs
  import Tunables

  const KSM_MM_FROZEN: nat := 0x01
  const KSM_MM_LISTED: nat := 0x02
  const KSM_MM_NEWCOMER: nat := 0x04
  const KSM_MM_SCANNED: nat := 0x08

  /** Number of cells of the merge window. */
  const MERGE_WIN: nat := 3

  type SlotId = nat

  /** The `state` bits of an mm_slot. */
  datatype SlotState = SlotState(frozen: bool, listed: bool, newcomer: bool, scanned: bool)

  /** The `state` short as stored. */
  function StateBits(st: SlotState): (b: nat)
    ensures b < 0x10
    ensures (b % 2 == 1) == st.frozen
  {
    (if st.frozen then KSM_MM_FROZEN else 0) + (if st.listed then KSM_MM_LISTED else 0)
    + (if st.newcomer then KSM_MM_NEWCOMER else 0) + (if st.scanned then KSM_MM_SCANNED else 0)
  }

  /** lksm_test_mm_state on every bit. */
  function StateOfBits(b: nat): (st: SlotState)
    requires b < 0x10
    ensures StateBits(st) == b
  {
    SlotState(b % 2 == 1, (b / 2) % 2 == 1, (b / 4) % 2 == 1, (b / 8) % 2 == 1)
  }

  lemma StateBitsRoundTrip(st: SlotState)
    ensures StateOfBits(StateBits(st)) == st
  {
  }

  /** An mm_slot: its state, whether it is on the scan list and on the VIP
      list, and its merge window. */
  datatype Slot = Slot(
    id: SlotId,
    state: SlotState,
    inScanList: bool,
    onVips: bool,
    mergeIdx: nat,
    window: seq<int>,   // nr_merged_win
    nrMerged: int)

  /** The slot's own invariant: a slot is never both frozen and listed, and
      its merge window is well formed with `nr_merged` its sum. */
  predicate SlotWf(s: Slot) {
    && !(s.state.frozen && s.state.listed)
    && |s.window| == MERGE_WIN && s.mergeIdx < MERGE_WIN
    && s.nrMerged == Sum(s.window, Id)
  }

  function Id(x: int): int { x }

  /** One entry of the VIP list: a slot and its nr_merged. */
  datatype Vip = Vip(id: SlotId, nrMerged: int)

  /** The scanner's counters of slots left to scan and the VIP list. */
  datatype Sched = Sched(nrScannable: int, nrFrozen: int, vips: seq<Vip>)

  // ---------------------------------------------------------------------
  // Slot creation and the freezer hooks

  /** __ksm_enter_alloc_slot: a new slot is a newcomer, frozen or listed
      according to its task, never scanned, on no VIP list; it joins the scan
      list unless the unmerge mode is running. */
  function EnterAllocSlot(id: SlotId, frozen: bool, runUnmerge: bool): (s: Slot)
    ensures SlotWf(s)
    ensures s.state.newcomer && !s.state.scanned
    ensures s.state.frozen == frozen && s.state.listed == !frozen
    ensures s.inScanList == !runUnmerge && !s.onVips
    ensures s.nrMerged == 0
  {
    Slot(id, SlotState(frozen, !frozen, true, false), !runUnmerge, false, 0, [0, 0, 0], 0)
  }

  /** lksm_task_frozen for a mergeable task: a listed slot other than the
      one being scanned becomes frozen, joins the scan list, and moves from
      the scannable count (if it was still unscanned) to the frozen count.
      The third component says whether ksm_crawl_wait is woken: only for
      such a slot, when the run mode is exactly merge and the crawler
      sleeps. */
  function TaskFrozen(c: Sched, s: Slot, isCurrent: bool, run: nat, crawlAsleep: bool)
    : (r: (Sched, Slot, bool))
    ensures SlotWf(s) ==> SlotWf(r.1)
    ensures !isCurrent && s.state.listed ==>
      && r.1.state == s.state.(frozen := true, listed := false)
      && r.1.inScanList
      && r.0.nrFrozen == c.nrFrozen + 1
      && r.0.nrScannable == c.nrScannable - (if s.state.scanned then 0 else 1)
    ensures isCurrent || !s.state.listed ==> r.0 == c && r.1 == s
    ensures r.2 <==> !isCurrent && s.state.listed && run == Tunables.KSM_RUN_MERGE && crawlAsleep
    ensures r.0.vips == c.vips && r.1.id == s.id && r.1.window == s.window
  {
    if !isCurrent && s.state.listed then
      var needWakeup := run == Tunables.KSM_RUN_MERGE;
      (c.(nrScannable := if s.state.scanned then c.nrScannable else c.nrScannable - 1,
          nrFrozen := c.nrFrozen + 1),
       s.(inScanList := true, state := s.state.(listed := false, frozen := true)),
       needWakeup && crawlAsleep)
    else (c, s, false)
  }

  /** lksm_task_thawed for a mergeable task: a frozen slot other than the one
      being scanned becomes listed; an unscanned one counts as scannable
      again, a scanned one leaves the scan list. */
  function TaskThawed(c: Sched, s: Slot, isCurrent: bool): (r: (Sched, Slot))
    ensures SlotWf(s) ==> SlotWf(r.1)
    ensures !isCurrent && s.state.frozen ==>
      && r.1.state == s.state.(frozen := false, listed := true)
      && r.1.inScanList == (s.inScanList && !s.state.scanned)
      && r.0.nrFrozen == c.nrFrozen - 1
      && r.0.nrScannable == c.nrScannable + (if s.state.scanned then 0 else 1)
    ensures isCurrent || !s.state.frozen ==> r == (c, s)
    ensures r.0.vips == c.vips && r.1.id == s.id && r.1.window == s.window
  {
    if s.state.frozen && !isCurrent then
      var s' := if s.state.scanned then s.(inScanList := false) else s;
      (c.(nrScannable := if s.state.scanned then c.nrScannable else c.nrScannable + 1,
          nrFrozen := c.nrFrozen - 1),
       s'.(state := s.state.(frozen := false, listed := true)))
    else (c, s)
  }

  /** Freezing then thawing a listed slot gives back the slot and the
      counters, provided the slot was on the scan list exactly when it was
      still to be scanned (a retired slot has left the list). */
  lemma FrozenThenThawedRestores(c: Sched, s: Slot, isCurrent: bool, run: nat, crawlAsleep: bool)
    requires s.state.listed && !s.state.frozen
    requires s.inScanList == !s.state.scanned
    ensures var f := TaskFrozen(c, s, isCurrent, run, crawlAsleep);
      TaskThawed(f.0, f.1, isCurrent) == (c, s)
  {
  }

  /** Thawing then freezing a frozen slot gives back the slot and the
      counters when it is on the scan list. */
  lemma ThawedThenFrozenRestores(c: Sched, s: Slot, isCurrent: bool, run: nat, crawlAsleep: bool)
    requires s.state.frozen && !s.state.listed && s.inScanList
    ensures var t := TaskThawed(c, s, isCurrent);
      var f := TaskFrozen(t.0, t.1, isCurrent, run, crawlAsleep);
      f.0 == c && f.1 == s
  {
  }

  // ---------------------------------------------------------------------
  // The merge window

  /** lksm_account_mm_slot_nr_merge: the count of the scan just finished
      goes into the window cell at `merge_idx`, the index moves on cyclically
      and `nr_merged` becomes the sum of the window. */
  function AccountNrMerge(s: Slot, n: int): (r: Slot)
    requires |s.window| == MERGE_WIN && s.mergeIdx < MERGE_WIN
    ensures SlotWf(s) ==> SlotWf(r)
    ensures |r.window| == MERGE_WIN && r.mergeIdx < MERGE_WIN
    ensures r.window[s.mergeIdx] == n
    ensures forall k :: 0 <= k < MERGE_WIN && k != s.mergeIdx ==> r.window[k] == s.window[k]
    ensures r.nrMerged == Sum(s.window, Id) - s.window[s.mergeIdx] + n
    ensures (r.mergeIdx + MERGE_WIN - 1) % MERGE_WIN == s.mergeIdx
    ensures r.id == s.id && r.state == s.state && r.inScanList == s.inScanList && r.onVips == s.onVips
  {
    var w := s.window[s.mergeIdx := n];
    var idx := if s.mergeIdx + 1 == MERGE_WIN then 0 else s.mergeIdx + 1;
    SumUpdate(s.window, s.mergeIdx, n, Id);
    s.(window := w, mergeIdx := idx, nrMerged := Sum(w, Id))
  }

  /** The window remembers exactly the last three counts: after three scans
      `nr_merged` is their sum, whatever came before. */
  lemma WindowKeepsLastThree(s: Slot, a: int, b: int, c: int)
    requires |s.window| == MERGE_WIN && s.mergeIdx < MERGE_WIN
    ensures AccountNrMerge(AccountNrMerge(AccountNrMerge(s, a), b), c).nrMerged == a + b + c
  {
    var s1 := AccountNrMerge(s, a);
    var s2 := AccountNrMerge(s1, b);
    var s3 := AccountNrMerge(s2, c);
    var i := s.mergeIdx;
    assert s1.mergeIdx == (i + 1) % 3 && s2.mergeIdx == (i + 2) % 3;
    assert s3.window[i] == a && s3.window[(i + 1) % 3] == b && s3.window[(i + 2) % 3] == c;
    SumOfThree(s3.window);
  }

  lemma SumOfThree(w: seq<int>)
    requires |w| == 3
    ensures Sum(w, Id) == w[0] + w[1] + w[2]
  {
    var t := w[1..];
    var u := t[1..];
    assert Sum(u, Id) == w[2] + Sum(u[1..], Id);
    assert Sum(t, Id) == w[1] + Sum(u, Id);
  }

  // ---------------------------------------------------------------------
  // The VIP list

  /** In-order traversal of vips_list: nr_merged does not increase. */
  predicate VipsOrdered(v: seq<Vip>) {
    forall i, j :: 0 <= i < j < |v| ==> v[i].nrMerged >= v[j].nrMerged
  }

  /** Where lksm_insert_mm_slot_ordered links a slot: the descent goes left
      past every node with a smaller count and right past every other, so the
      slot lands after all entries whose count is at least its own. */
  function InsertPos(v: seq<Vip>, n: int): (p: nat)
    requires VipsOrdered(v)
    ensures p <= |v|
    ensures forall k :: 0 <= k < p ==> v[k].nrMerged >= n
    ensures forall k :: p <= k < |v| ==> v[k].nrMerged < n
    decreases |v|
  {
    if |v| == 0 || v[0].nrMerged < n then 0
    else
      var p := InsertPos(v[1..], n);
      assert forall k :: 1 <= k <= p ==> v[k] == v[1..][k - 1];
      1 + p
  }

  /** `r` is `v` with `x` linked at position `p`, after every entry whose
      count is at least its own and before every smaller one. */
  predicate InsertedAt(r: seq<Vip>, v: seq<Vip>, x: Vip, p: int) {
    && 0 <= p < |r| && r[p] == x && r[..p] + r[p + 1..] == v
    && (forall k :: 0 <= k < p ==> r[k].nrMerged >= x.nrMerged)
    && (forall k :: p < k < |r| ==> r[k].nrMerged < x.nrMerged)
  }

  /** A slot linked at its descent position keeps the list ordered. */
  lemma InsertedAtKeepsOrdered(r: seq<Vip>, v: seq<Vip>, x: Vip, p: int)
    requires VipsOrdered(v) && InsertedAt(r, v, x, p)
    ensures VipsOrdered(r)
  {
    assert |r| == |v| + 1;
    assert forall k :: 0 <= k < p ==> r[k] == v[k];
    assert forall k :: p < k < |r| ==> r[k] == v[k - 1];
  }

  /** A slot linked into the list adds exactly itself to its entries. */
  lemma InsertedAtMultiset(r: seq<Vip>, v: seq<Vip>, x: Vip, p: int)
    requires InsertedAt(r, v, x, p)
    ensures multiset(r) == multiset(v) + multiset{x}
    ensures forall y :: y in r <==> y in v || y == x
  {
    assert r == r[..p] + [x] + r[p + 1..];
    forall y ensures y in r <==> y in v || y == x {
      assert y in r <==> y in multiset(r);
      assert y in v <==> y in multiset(v);
    }
  }

  function InsertOrdered(v: seq<Vip>, x: Vip): (r: seq<Vip>)
    requires VipsOrdered(v)
    ensures VipsOrdered(r)
    ensures multiset(r) == multiset(v) + multiset{x}
    ensures exists p :: InsertedAt(r, v, x, p)
    ensures forall y :: y in r <==> y in v || y == x
  {
    var p := InsertPos(v, x.nrMerged);
    var r := v[..p] + [x] + v[p..];
    assert r[p] == x && r[..p] == v[..p] && r[p + 1..] == v[p..];
    assert v == v[..p] + v[p..];
    assert InsertedAt(r, v, x, p);
    InsertedAtKeepsOrdered(r, v, x, p);
    InsertedAtMultiset(r, v, x, p);
    r
  }

  /** Taking a slot off the VIP list (rb_erase). */
  function RemoveVip(v: seq<Vip>, id: SlotId): (r: seq<Vip>)
    ensures forall k :: 0 <= k < |r| ==> r[k].id != id
    ensures forall x :: x in r <==> x in v && x.id != id
    decreases |v|
  {
    if |v| == 0 then []
    else
      var rest := RemoveVip(v[1..], id);
      assert forall x :: x in v <==> x == v[0] || x in v[1..];
      if v[0].id == id then rest
      else [v[0]] + rest
  }

  /** Taking a slot off the VIP list keeps the others in order. */
  lemma {:induction false} RemoveVipOrdered(v: seq<Vip>, id: SlotId)
    requires VipsOrdered(v)
    ensures VipsOrdered(RemoveVip(v, id))
    decreases |v|
  {
    if |v| > 0 {
      OrderedTail(v);
      RemoveVipOrdered(v[1..], id);
      var rest := RemoveVip(v[1..], id);
      if v[0].id != id {
        AtMostSub(rest, v[1..], v[0].nrMerged);
        OrderedCons(v[0], rest);
      }
    }
  }

  /** No entry counts more than `n`. */
  predicate AllAtMost(v: seq<Vip>, n: int) {
    forall k :: 0 <= k < |v| ==> v[k].nrMerged <= n
  }

  lemma OrderedTail(v: seq<Vip>)
    requires VipsOrdered(v) && |v| > 0
    ensures VipsOrdered(v[1..]) && AllAtMost(v[1..], v[0].nrMerged)
  {
    var tail := v[1..];
    forall i, j | 0 <= i < j < |tail| ensures tail[i].nrMerged >= tail[j].nrMerged {
      assert tail[i] == v[i + 1] && tail[j] == v[j + 1];
    }
    forall k | 0 <= k < |tail| ensures tail[k].nrMerged <= v[0].nrMerged {
      assert tail[k] == v[k + 1];
    }
  }

  lemma AtMostSub(r: seq<Vip>, v: seq<Vip>, n: int)
    requires forall x :: x in r ==> x in v
    requires AllAtMost(v, n)
    ensures AllAtMost(r, n)
  {
    forall k | 0 <= k < |r| ensures r[k].nrMerged <= n {
      assert r[k] in v;
    }
  }

  lemma OrderedCons(a: Vip, rest: seq<Vip>)
    requires VipsOrdered(rest) && AllAtMost(rest, a.nrMerged)
    ensures VipsOrdered([a] + rest)
  {
    var r := [a] + rest;
    forall i, j | 0 <= i < j < |r| ensures r[i].nrMerged >= r[j].nrMerged {
      assert r[j] == rest[j - 1];
      if i > 0 { assert r[i] == rest[i - 1]; }
    }
  }

  // ---------------------------------------------------------------------
  // Retiring a scanned slot

  /** The end of a slot's scan: it stops being a newcomer and frozen, is
      marked scanned, leaves the scan list, is taken off the VIP list, and is
      put back on it ordered by its new window sum when that sum is not
      zero. Exactly one of the frozen and scannable counts drops. */
  function RetireSlot(c: Sched, s: Slot, slotNrMerged: int): (r: (Sched, Slot))
    requires |s.window| == MERGE_WIN && s.mergeIdx < MERGE_WIN
    requires VipsOrdered(c.vips)
    ensures SlotWf(s) ==> SlotWf(r.1)
    ensures VipsOrdered(r.0.vips)
    ensures r.1.state == s.state.(newcomer := false, frozen := false, scanned := true)
    ensures !r.1.inScanList
    ensures r.0.nrFrozen == c.nrFrozen - (if s.state.frozen then 1 else 0)
    ensures r.0.nrScannable == c.nrScannable - (if s.state.frozen then 0 else 1)
    ensures |r.1.window| == MERGE_WIN && r.1.window[s.mergeIdx] == slotNrMerged
    ensures r.1.onVips <==> r.1.nrMerged != 0
    ensures r.1.onVips <==> Vip(s.id, r.1.nrMerged) in r.0.vips
    ensures forall x :: x in c.vips && x.id != s.id ==> x in r.0.vips
    ensures forall x :: x in r.0.vips && x.id != s.id ==> x in c.vips
  {
    var c' := c.(nrFrozen := if s.state.frozen then c.nrFrozen - 1 else c.nrFrozen,
                 nrScannable := if s.state.frozen then c.nrScannable else c.nrScannable - 1);
    var s1 := s.(state := s.state.(newcomer := false, frozen := false, scanned := true), inScanList := false);
    var v := RemoveVip(c.vips, s.id);
    RemoveVipOrdered(c.vips, s.id);
    var s2 := AccountNrMerge(s1, slotNrMerged);
    if s2.nrMerged != 0 then
      var v' := InsertOrdered(v, Vip(s.id, s2.nrMerged));
      (c'.(vips := v'), s2.(onVips := true))
    else
      (c'.(vips := v), s2.(onVips := false))
  }
}
