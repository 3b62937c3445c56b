/**
 The per-mm_slot list of rmap_items of mm/lksm.c: one item per scanned
 virtual page, kept in ascending address order, and the removal of an item
 from whichever tree its flags say it is in.
 */
module Rmap {
  import opened KsmDefs
  import StableTree
  import UnstableTree
  import Tunables

  /** Both trees and the global counters. */
  datatype Trees = Trees(stable: StableTree.Tree, unstable: UnstableTree.UTree, counters: Counters)

  /** The model's invariant over the trees: the stable tree is well formed and
      agrees with the counters, the unstable tree is ordered. */
  predicate TreesWf(s: Trees) {
    && StableTree.Wf(s.stable)
    && StableTree.Consistent(s.stable, s.counters)
    && UnstableTree.Sorted(s.unstable)
  }

  datatype Removed = Removed(trees: Trees, item: RmapItem, released: seq<ItemId>)

  /** remove_rmap_item_from_tree. An item flagged STABLE_FLAG leaves the node
      its head names (the whole node goes if its KSM page is stale, and every
      item on it is `released`); an item flagged UNSTABLE_FLAG leaves the
      unstable tree; an unflagged item is untouched. A head that names no
      node, or a node that does not list the item, cannot happen while the
      trees and items agree, and yields `Bug`. */
  function RemoveRmapItemFromTree(s: Trees, item: RmapItem, live: set<Kpfn>): (r: StableTree.Outcome<Removed>)
    ensures !HasStableFlag(item.address) && !HasUnstableFlag(item.address) ==>
      r == StableTree.Done(Removed(s, item, []))
    ensures r.Done? ==>
      && r.value.item.id == item.id
      && PageOf(r.value.item.address) == PageOf(item.address)
      && !HasStableFlag(r.value.item.address)
      && !HasUnstableFlag(r.value.item.address)
    ensures r.Done? && !HasStableFlag(item.address) && HasUnstableFlag(item.address) ==>
      && r.value.trees.stable == s.stable
      && r.value.trees.counters == s.counters.(pagesUnshared := s.counters.pagesUnshared - 1)
      && !UnstableTree.InTree(r.value.trees.unstable, item.id)
      && r.value.released == []
    ensures r.Done? && HasStableFlag(item.address) ==>
      && r.value.trees.unstable == s.unstable
      && r.value.trees.counters.pagesUnshared == s.counters.pagesUnshared
      && r.value.trees.counters.pagesShared + r.value.trees.counters.pagesSharing
           <= s.counters.pagesShared + s.counters.pagesSharing - 1
  {
    if HasStableFlag(item.address) then
      match item.head
      case None => StableTree.Bug
      case Some(kpfn) =>
        match StableTree.FindNode(s.stable, kpfn)
        case None => StableTree.Bug
        case Some(ref) =>
          if item.id !in StableTree.NodeAt(s.stable, ref).hlist then StableTree.Bug
          else
            match StableTree.RemoveStableRmapItem(s.stable, s.counters, ref, item, live)
            case Bug => StableTree.Bug
            case Done(d) =>
              assert d.item.address == ClearFlags(item.address);
              StableTree.Done(Removed(Trees(d.tree, s.unstable, d.counters), d.item, d.released))
    else if HasUnstableFlag(item.address) then
      var u := UnstableTree.RemoveUnstableRmapItem(s.unstable, s.counters, item);
      StableTree.Done(Removed(Trees(s.stable, u.tree, u.counters), u.item, []))
    else StableTree.Done(Removed(s, item, []))
  }

  lemma RemoveKeepsTreesWf(s: Trees, item: RmapItem, live: set<Kpfn>)
    requires TreesWf(s)
    ensures var r := RemoveRmapItemFromTree(s, item, live);
      r.Done? ==> TreesWf(r.value.trees)
  {
    if HasStableFlag(item.address) {
      if item.head.Some? {
        var ref := StableTree.FindNode(s.stable, item.head.value);
        if ref.Some? && item.id in StableTree.NodeAt(s.stable, ref.value).hlist {
          StableTree.RemoveStableRmapKeepsConsistent(s.stable, s.counters, ref.value, item, live);
        }
      }
    } else if HasUnstableFlag(item.address) {
      UnstableTree.RemoveUnstableKeepsSorted(s.unstable, s.counters, item);
    }
  }

  // ---------------------------------------------------------------------
  // The rmap_list cursor

  /** Strictly ascending page addresses. */
  predicate Ordered(l: seq<RmapItem>) {
    forall i, j :: 0 <= i < j < |l| ==> PageOf(l[i].address) < PageOf(l[j].address)
  }

  /** Items agree except perhaps for the flags their addresses carry. */
  predicate SameButFlags(x: RmapItem, y: RmapItem) {
    && x.id == y.id && x.oldchecksum == y.oldchecksum && x.head == y.head
    && PageOf(x.address) == PageOf(y.address)
  }

  /** Items left on other lists of the same slot lose their tree flags when
      the node they hung off is removed (remove_node_from_stable_tree). */
  function Release(l: seq<RmapItem>, ids: seq<ItemId>): (l': seq<RmapItem>)
    ensures |l'| == |l|
    ensures forall k :: 0 <= k < |l| ==> SameButFlags(l'[k], l[k])
    ensures forall k :: 0 <= k < |l| && l[k].id !in ids ==> l'[k] == l[k]
    ensures forall k :: 0 <= k < |l| && l[k].id in ids ==> l'[k].address == ClearFlags(l[k].address)
    decreases |l|
  {
    if |l| == 0 then []
    else
      [if l[0].id in ids then l[0].(address := ClearFlags(l[0].address)) else l[0]] + Release(l[1..], ids)
  }

  /** Number of leading items whose page lies below `addr`. */
  function CountBelow(l: seq<RmapItem>, addr: Addr): (n: nat)
    ensures n <= |l|
    decreases |l|
  {
    if |l| == 0 || PageOf(l[0].address) >= addr then 0
    else 1 + CountBelow(l[1..], addr)
  }

  /** The leading items counted lie below `addr`; the next one does not. */
  lemma {:induction false} CountBelowSplits(l: seq<RmapItem>, addr: Addr)
    ensures forall k :: 0 <= k < CountBelow(l, addr) ==> PageOf(l[k].address) < addr
    ensures CountBelow(l, addr) < |l| ==> PageOf(l[CountBelow(l, addr)].address) >= addr
    decreases |l|
  {
    if |l| > 0 && PageOf(l[0].address) < addr {
      CountBelowSplits(l[1..], addr);
      var n := CountBelow(l[1..], addr);
      forall k | 0 < k <= n ensures PageOf(l[k].address) < addr {
        assert l[k] == l[1..][k - 1];
      }
    }
  }

  /** The rmap_item's frozen bit (FROZEN_BIT, bit 0 of oldchecksum). */
  predicate Frozen(item: RmapItem) {
    item.oldchecksum % 2 == 1
  }

  /** lksm_set_rmap_frozen / lksm_clear_rmap_frozen: `oldchecksum |= 1` or
      `oldchecksum &= ~1`. */
  function SetFrozen(item: RmapItem, frozen: bool): (r: RmapItem)
    ensures Frozen(r) == frozen
    ensures r.oldchecksum / 2 == item.oldchecksum / 2
    ensures r.(oldchecksum := item.oldchecksum) == item
  {
    var cleared := item.oldchecksum - item.oldchecksum % 2;
    item.(oldchecksum := if frozen then cleared + 1 else cleared)
  }

  /** Where the cursor lands: the remaining list starts with the item for
      `addr` when there is one (`found`). */
  datatype Cursor = Cursor(trees: Trees, list: seq<RmapItem>, found: bool)

  /** A flagged address compares above `addr` exactly when its page does. */
  lemma AddressAbovePage(address: Addr, addr: Addr)
    requires PageAligned(addr) && PageOf(address) != addr
    ensures (address > addr) == (PageOf(address) > addr)
  {
    var p := address / PAGE_SIZE;
    var q := addr / PAGE_SIZE;
    assert PageOf(address) == PAGE_SIZE * p;
    assert addr == PAGE_SIZE * q;
    if p < q {
      assert PAGE_SIZE * p + PAGE_SIZE <= PAGE_SIZE * q;
    }
  }

  /** Releasing items keeps a list's pages, so its order and its count below `addr`. */
  lemma ReleaseKeepsOrdered(l: seq<RmapItem>, ids: seq<ItemId>, addr: Addr)
    requires Ordered(l)
    ensures Ordered(Release(l, ids))
    ensures CountBelow(Release(l, ids), addr) == CountBelow(l, addr)
  {
    var l' := Release(l, ids);
    forall i, j | 0 <= i < j < |l'| ensures PageOf(l'[i].address) < PageOf(l'[j].address) {
      assert PageOf(l'[i].address) == PageOf(l[i].address);
      assert PageOf(l'[j].address) == PageOf(l[j].address);
    }
    CountBelowPages(l', l, addr);
  }

  /** One turn of the loop of get_next_rmap_item: the item at the head of
      `l`, which lies below `addr`, is removed from its tree and freed. */
  method FreeRmapItem(s: Trees, l: seq<RmapItem>, addr: Addr, live: set<Kpfn>) returns (r: StableTree.Outcome<Cursor>)
    requires Ordered(l) && |l| > 0 && PageOf(l[0].address) < addr
    ensures r.Done? <==> RemoveRmapItemFromTree(s, l[0], live).Done?
    ensures r.Done? ==>
      var rest := r.value.list;
      && Ordered(rest)
      && Tracks(rest, l, 1)
      && CountBelow(rest, addr) + 1 == CountBelow(l, addr)
      && r.value.trees.counters.rmapItems == s.counters.rmapItems - 1
      && (TreesWf(s) ==> TreesWf(r.value.trees))
  {
    var d := RemoveRmapItemFromTree(s, l[0], live);
    if d.Bug? {
      return StableTree.Bug;
    }
    if TreesWf(s) {
      RemoveKeepsTreesWf(s, l[0], live);
    }
    var tail := Release(l[1..], d.value.released);
    ReleaseKeepsOrdered(l[1..], d.value.released, addr);
    ReleaseTracks(l, d.value.released);
    var t := d.value.trees.(counters := d.value.trees.counters.(rmapItems := d.value.trees.counters.rmapItems - 1));
    return StableTree.Done(Cursor(t, tail, false));
  }

  /** Releasing the items behind the head leaves them in step with `l`. */
  lemma ReleaseTracks(l: seq<RmapItem>, ids: seq<ItemId>)
    requires |l| > 0
    ensures Tracks(Release(l[1..], ids), l, 1)
  {
    var tail := Release(l[1..], ids);
    forall k | 0 <= k < |tail| ensures SameButFlags(tail[k], l[1 + k]) {
      assert SameButFlags(tail[k], l[1..][k]);
    }
  }

  /** Replacing the head by an item of the same page keeps a list ordered. */
  lemma OrderedReplaceHead(rest: seq<RmapItem>, item: RmapItem)
    requires Ordered(rest) && |rest| > 0 && PageOf(item.address) == PageOf(rest[0].address)
    ensures Ordered([item] + rest[1..])
  {
    var list := [item] + rest[1..];
    forall i, j | 0 <= i < j < |list| ensures PageOf(list[i].address) < PageOf(list[j].address) {
      assert PageOf(list[i].address) == PageOf(rest[i].address);
      assert list[j] == rest[j];
    }
  }

  /** An item whose page lies below the first one's can be put in front. */
  lemma OrderedConsBelow(item: RmapItem, rest: seq<RmapItem>)
    requires Ordered(rest) && (|rest| > 0 ==> PageOf(item.address) < PageOf(rest[0].address))
    ensures Ordered([item] + rest)
  {
    var list := [item] + rest;
    forall i, j | 0 <= i < j < |list| ensures PageOf(list[i].address) < PageOf(list[j].address) {
      if i > 0 { assert list[i] == rest[i - 1]; }
      assert list[j] == rest[j - 1];
    }
  }

  /** `rest` is what is left of `l` after its first `i` items, item for
      item, but for the flags. */
  predicate Tracks(rest: seq<RmapItem>, l: seq<RmapItem>, i: nat) {
    && i + |rest| == |l|
    && forall k :: 0 <= k < |rest| ==> SameButFlags(rest[k], l[i + k])
  }

  lemma TracksCompose(a: seq<RmapItem>, b: seq<RmapItem>, l: seq<RmapItem>, i: nat, j: nat)
    requires Tracks(a, b, j) && Tracks(b, l, i)
    ensures Tracks(a, l, i + j)
  {
    forall k | 0 <= k < |a| ensures SameButFlags(a[k], l[i + j + k]) {
      assert SameButFlags(b[j + k], l[i + (j + k)]);
    }
  }

  lemma TracksTail(rest: seq<RmapItem>, l: seq<RmapItem>, i: nat)
    requires Tracks(rest, l, i) && |rest| > 0
    ensures Tracks(rest[1..], l, i + 1)
  {
    forall k | 0 <= k < |rest| - 1 ensures SameButFlags(rest[1..][k], l[i + 1 + k]) {
      assert rest[1..][k] == rest[k + 1];
    }
  }

  /** The loop of get_next_rmap_item: items in front of the cursor whose page
      is not `addr` and whose address does not exceed `addr` are removed from
      their trees and freed. Freeing a node of the stable tree may release
      items further down the list (their flags are cleared). */
  method DropBelow(s: Trees, l: seq<RmapItem>, addr: Addr, live: set<Kpfn>) returns (r: StableTree.Outcome<Cursor>)
    requires PageAligned(addr) && Ordered(l)
    ensures r.Done? ==>
      var n := CountBelow(l, addr);
      var rest := r.value.list;
      && !r.value.found
      && Ordered(rest)
      && (|rest| > 0 ==> PageOf(rest[0].address) >= addr)
      && Tracks(rest, l, n)
      && r.value.trees.counters.rmapItems == s.counters.rmapItems - n
      && (n == 0 ==> r.value.trees == s)
      && (TreesWf(s) ==> TreesWf(r.value.trees))
  {
    var t := s;
    var rest := l;
    var i := 0;
    while |rest| > 0 && PageOf(rest[0].address) != addr && !(rest[0].address > addr)
      invariant Ordered(rest) && Tracks(rest, l, i)
      invariant CountBelow(rest, addr) + i == CountBelow(l, addr)
      invariant t.counters.rmapItems == s.counters.rmapItems - i
      invariant TreesWf(s) ==> TreesWf(t)
      invariant i == 0 ==> t == s
      decreases |rest|
    {
      AddressAbovePage(rest[0].address, addr);
      var d := FreeRmapItem(t, rest, addr, live);
      if d.Bug? {
        return StableTree.Bug;
      }
      TracksCompose(d.value.list, rest, l, i, 1);
      t, rest := d.value.trees, d.value.list;
      i := i + 1;
    }
    assert |rest| == 0 || PageOf(rest[0].address) >= addr by {
      if |rest| > 0 && PageOf(rest[0].address) != addr { AddressAbovePage(rest[0].address, addr); }
    }
    assert CountBelow(rest, addr) == 0;
    assert i == CountBelow(l, addr);
    return StableTree.Done(Cursor(t, rest, false));
  }

  /** get_next_rmap_item on the part `l` of a slot's rmap_list from the
      cursor on. After the loop, an item for `addr` is returned with its
      frozen bit set exactly when the slot is frozen and the item is in the
      unstable tree; otherwise a new item `newId` for `addr`, frozen when the
      slot is, is linked in front of the rest if `allocOk`. */
  method GetNextRmapItem(s: Trees, l: seq<RmapItem>, addr: Addr, slotFrozen: bool,
                         newId: ItemId, allocOk: bool, live: set<Kpfn>) returns (r: StableTree.Outcome<Cursor>)
    requires PageAligned(addr) && Ordered(l)
    ensures r.Done? ==>
      var n := CountBelow(l, addr);
      var list := r.value.list;
      var hit := n < |l| && PageOf(l[n].address) == addr;
      && Ordered(list)
      && (|list| > 0 ==> PageOf(list[0].address) >= addr)
      && (r.value.found ==> |list| > 0 && PageOf(list[0].address) == addr)
      && (TreesWf(s) ==> TreesWf(r.value.trees))
      && (hit ==>
            && r.value.found
            && |list| == |l| - n
            && list[0].id == l[n].id && list[0].head == l[n].head
            && list[0].oldchecksum / 2 == l[n].oldchecksum / 2
            && (Frozen(list[0]) <==> slotFrozen && HasUnstableFlag(list[0].address))
            && Tracks(list[1..], l, n + 1)
            && r.value.trees.counters.rmapItems == s.counters.rmapItems - n)
      && (!hit ==>
            && (r.value.found <==> allocOk)
            && (allocOk ==> && list[0] == RmapItem(newId, addr, if slotFrozen then 1 else 0, None)
                            && Tracks(list[1..], l, n)
                            && r.value.trees.counters.rmapItems == s.counters.rmapItems - n + 1)
            // with nothing freed, the fresh item is one more volatile page
            && (allocOk && n == 0 && Tunables.Unsettled(s.counters) >= 0 ==>
                  Tunables.PagesVolatile(r.value.trees.counters) == Tunables.PagesVolatile(s.counters) + 1)
            && (!allocOk ==> && Tracks(list, l, n)
                             && r.value.trees.counters.rmapItems == s.counters.rmapItems - n))
  {
    var d := DropBelow(s, l, addr, live);
    if d.Bug? {
      return StableTree.Bug;
    }
    var t, rest := d.value.trees, d.value.list;
    if |rest| > 0 && PageOf(rest[0].address) == addr {
      assert SameButFlags(rest[0], l[CountBelow(l, addr)]);
      var item := SetFrozen(rest[0], slotFrozen && HasUnstableFlag(rest[0].address));
      var list := [item] + rest[1..];
      TracksTail(rest, l, CountBelow(l, addr));
      assert list[1..] == rest[1..];
      OrderedReplaceHead(rest, item);
      return StableTree.Done(Cursor(t, list, true));
    }
    assert |rest| > 0 ==> SameButFlags(rest[0], l[CountBelow(l, addr)]);
    if !allocOk {
      return StableTree.Done(Cursor(t, rest, false));
    }
    var item := RmapItem(newId, addr, if slotFrozen then 1 else 0, None);
    assert PageOf(addr) == addr;
    var list := [item] + rest;
    assert list[1..] == rest;
    OrderedConsBelow(item, rest);
    return StableTree.Done(Cursor(t.(counters := t.counters.(rmapItems := t.counters.rmapItems + 1)), list, true));
  }

  /** Two lists with the same pages, item by item, have the same count below `addr`. */
  lemma {:induction false} CountBelowPages(a: seq<RmapItem>, b: seq<RmapItem>, addr: Addr)
    requires |a| == |b| && forall k :: 0 <= k < |a| ==> PageOf(a[k].address) == PageOf(b[k].address)
    ensures CountBelow(a, addr) == CountBelow(b, addr)
    decreases |a|
  {
    if |a| > 0 {
      CountBelowPages(a[1..], b[1..], addr);
    }
  }

  /** The item is in neither tree. */
  predicate Unflagged(x: RmapItem) {
    !HasStableFlag(x.address) && !HasUnstableFlag(x.address)
  }

  predicate AllUnflagged(l: seq<RmapItem>) {
    forall k :: 0 <= k < |l| ==> Unflagged(l[k])
  }

  /** Releasing items clears flags and never sets one. */
  lemma ReleaseKeepsUnflagged(l: seq<RmapItem>, ids: seq<ItemId>)
    requires AllUnflagged(l)
    ensures AllUnflagged(Release(l, ids))
  {
    var l' := Release(l, ids);
    forall k | 0 <= k < |l'| ensures Unflagged(l'[k]) {
      assert Unflagged(l[k]);
    }
  }

  /** remove_trailing_rmap_items: every item from the cursor on is removed
      from its tree and freed. */
  function RemoveTrailingRmapItems(s: Trees, l: seq<RmapItem>, live: set<Kpfn>): (r: StableTree.Outcome<Trees>)
    ensures r.Done? ==> r.value.counters.rmapItems == s.counters.rmapItems - |l|
    ensures r.Done? && AllUnflagged(l) ==> r.value.stable == s.stable && r.value.unstable == s.unstable
    ensures r.Done? && TreesWf(s) ==> TreesWf(r.value)
    decreases |l|
  {
    if |l| == 0 then StableTree.Done(s)
    else
      match RemoveRmapItemFromTree(s, l[0], live)
      case Bug => StableTree.Bug
      case Done(d) =>
        var t := d.trees.(counters := d.trees.counters.(rmapItems := d.trees.counters.rmapItems - 1));
        var tail := Release(l[1..], d.released);
        assert AllUnflagged(l) ==> AllUnflagged(tail) && d.trees.stable == s.stable && d.trees.unstable == s.unstable by {
          if AllUnflagged(l) {
            assert Unflagged(l[0]);
            assert AllUnflagged(l[1..]) by {
              forall k | 0 <= k < |l| - 1 ensures Unflagged(l[1..][k]) {
                assert l[1..][k] == l[k + 1];
              }
            }
            ReleaseKeepsUnflagged(l[1..], d.released);
          }
        }
        assert TreesWf(s) ==> TreesWf(t) by {
          if TreesWf(s) {
            RemoveKeepsTreesWf(s, l[0], live);
            assert StableTree.Consistent(t.stable, t.counters);
          }
        }
        RemoveTrailingRmapItems(t, tail, live)
  }
}
