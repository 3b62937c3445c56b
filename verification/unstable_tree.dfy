/**
 The unstable tree of mm/lksm.c: rmap_items of pages that have not changed
 since the last scan, ordered by content, rebuilt from empty every scan
 round. The red-black tree is modelled by its in-order sequence; tree nodes
 are the rmap_items themselves.
 */
module UnstableTree {
  import opened KsmDefs

  datatype UEntry = UEntry(content: Content, item: ItemId)

  /** In-order sequence of the unstable tree. */
  type UTree = seq<UEntry>

  predicate Sorted(t: UTree) {
    forall i, j :: 0 <= i < j < |t| ==> t[i].content < t[j].content
  }

  predicate InTree(t: UTree, id: ItemId) {
    exists k :: 0 <= k < |t| && t[k].item == id
  }

  /** An rmap_item carries no tree flag and no round byte. */
  predicate Untagged(address: Addr) {
    PageAligned(address)
  }

  function FindContent(t: UTree, x: Content): (r: Option<nat>)
    ensures r.Some? ==> r.value < |t| && t[r.value].content == x
    ensures r.None? ==> forall k :: 0 <= k < |t| ==> t[k].content != x
    decreases |t|
  {
    if |t| == 0 then None
    else if t[0].content == x then Some(0)
    else match FindContent(t[1..], x)
      case None => None
      case Some(k) => Some(k + 1)
  }

  function InsertPos(t: UTree, x: Content): (p: nat)
    requires Sorted(t)
    ensures p <= |t|
    ensures forall k :: 0 <= k < p ==> t[k].content < x
    ensures forall k :: p <= k < |t| ==> t[k].content >= x
    decreases |t|
  {
    if |t| == 0 || t[0].content >= x then 0
    else 1 + InsertPos(t[1..], x)
  }

  /** The entries of `t` with `e` linked in at position `p`. */
  lemma InsertAtIndex(t: UTree, p: nat, e: UEntry, k: nat)
    requires p <= |t| && k <= |t|
    ensures var t' := t[..p] + [e] + t[p..];
      |t'| == |t| + 1 && t'[k] == (if k < p then t[k] else if k == p then e else t[k - 1])
  {
  }

  lemma InsertKeepsSorted(t: UTree, e: UEntry)
    requires Sorted(t) && FindContent(t, e.content).None?
    ensures var p := InsertPos(t, e.content); Sorted(t[..p] + [e] + t[p..])
  {
    var p := InsertPos(t, e.content);
    var t' := t[..p] + [e] + t[p..];
    forall a, b | 0 <= a < b < |t'|
      ensures t'[a].content < t'[b].content
    {
      InsertAtIndex(t, p, e, a);
      InsertAtIndex(t, p, e, b);
    }
  }

  /** rb_link_node and rb_insert_color of an entry whose content is not in
      the tree: it is linked in after every smaller content. */
  function Insert(t: UTree, e: UEntry): (t': UTree)
    requires Sorted(t) && FindContent(t, e.content).None?
    ensures Sorted(t') && |t'| == |t| + 1
    ensures multiset(t') == multiset(t) + multiset{e}
    ensures InTree(t', e.item)
  {
    var p := InsertPos(t, e.content);
    InsertKeepsSorted(t, e);
    var t' := t[..p] + [e] + t[p..];
    InsertAtIndex(t, p, e, p);
    assert t == t[..p] + t[p..];
    t'
  }

  /** Erasing an entry just inserted gives the tree back. */
  lemma EraseInserted(t: UTree, e: UEntry)
    requires Sorted(t) && FindContent(t, e.content).None? && !InTree(t, e.item)
    ensures Erase(Insert(t, e), e.item) == t
  {
    var p := InsertPos(t, e.content);
    var a, b := t[..p], t[p..];
    assert forall k :: 0 <= k < |a| ==> a[k] == t[k];
    assert forall k :: 0 <= k < |b| ==> b[k] == t[p + k];
    EraseSplit(a, e, b);
    assert t == a + b;
  }

  // ---------------------------------------------------------------------
  // unstable_tree_search_insert

  /** `Match`: an unstable item with identical content, to merge with.
      `Inserted`: no such item, the scanned one joins the tree.
      `Abandoned`: the walk met a tree page it could not take
      (get_mergeable_page failed, or the page is the scanned page itself). */
  datatype SearchOutcome = Match(item: ItemId) | Inserted | Abandoned

  datatype USearch = USearch(tree: UTree, counters: Counters, item: RmapItem, outcome: SearchOutcome)

  /** unstable_tree_search_insert for the scanned page of `item` with content
      `x`. `walkOk` is false when the walk gave up on a tree page. Inserting
      tags the item's address with UNSTABLE_FLAG and the low byte of
      scan_round and counts one more unshared page. */
  function UnstableTreeSearchInsert(t: UTree, c: Counters, item: RmapItem, x: Content, walkOk: bool, scanRound: nat)
    : (r: USearch)
    requires Sorted(t) && Untagged(item.address)
    ensures Sorted(r.tree)
    ensures r.outcome.Abandoned? <==> !walkOk
    ensures r.outcome.Match? <==> walkOk && FindContent(t, x).Some?
    ensures !r.outcome.Inserted? ==> r.tree == t && r.counters == c && r.item == item
    ensures r.outcome.Match? ==>
      exists k :: 0 <= k < |t| && t[k] == UEntry(x, r.outcome.item)
    ensures r.outcome.Inserted? ==>
      && |r.tree| == |t| + 1
      && multiset(r.tree) == multiset(t) + multiset{UEntry(x, item.id)}
      && InTree(r.tree, item.id)
      && r.counters == c.(pagesUnshared := c.pagesUnshared + 1)
      && r.item.id == item.id && r.item.head == item.head && r.item.oldchecksum == item.oldchecksum
      && PageOf(r.item.address) == item.address
      && HasUnstableFlag(r.item.address) && !HasStableFlag(r.item.address)
      && RoundTag(r.item.address) == scanRound % (SEQNR_MASK + 1)
  {
    if !walkOk then USearch(t, c, item, Abandoned)
    else match FindContent(t, x)
      case Some(k) => USearch(t, c, item, Match(t[k].item))
      case None =>
        USearch(Insert(t, UEntry(x, item.id)), c.(pagesUnshared := c.pagesUnshared + 1),
                item.(address := TagUnstable(item.address, scanRound)), Inserted)
  }

  // ---------------------------------------------------------------------
  // The unstable branch of remove_rmap_item_from_tree

  /** The unstable tree without item `id`. */
  function Erase(t: UTree, id: ItemId): (t': UTree)
    ensures |t'| <= |t|
    ensures forall k :: 0 <= k < |t'| ==> t'[k].item != id
    ensures multiset(t') <= multiset(t)
    decreases |t|
  {
    if |t| == 0 then []
    else
      var rest := Erase(t[1..], id);
      assert t == [t[0]] + t[1..];
      if t[0].item == id then rest
      else
        var t' := [t[0]] + rest;
        assert forall k :: 1 <= k < |t'| ==> t'[k] == rest[k - 1];
        t'
  }

  lemma {:induction false} EraseKeepsSorted(t: UTree, id: ItemId)
    requires Sorted(t)
    ensures Sorted(Erase(t, id))
    decreases |t|
  {
    if |t| > 0 {
      EraseKeepsSorted(t[1..], id);
      if t[0].item != id {
        var rest := Erase(t[1..], id);
        forall k | 0 <= k < |rest| ensures t[0].content < rest[k].content {
          assert rest[k] in multiset(rest);
          assert rest[k] in multiset(t[1..]);
        }
      }
    }
  }

  datatype URemoved = URemoved(tree: UTree, counters: Counters, item: RmapItem)

  /** Removing an rmap_item flagged UNSTABLE_FLAG: it leaves the current tree
      if it is in it, its flags and round byte are cleared, and one fewer page
      is unshared. This is the removal the rest of the model uses. */
  function RemoveUnstableRmapItem(t: UTree, c: Counters, item: RmapItem): (r: URemoved)
    requires HasUnstableFlag(item.address)
    ensures !InTree(r.tree, item.id)
    ensures InTree(t, item.id) ==> |r.tree| < |t|
    ensures !InTree(t, item.id) ==> r.tree == t
    ensures forall k :: 0 <= k < |t| && t[k].item != item.id ==> t[k] in r.tree
    ensures r.counters == c.(pagesUnshared := c.pagesUnshared - 1)
    ensures r.item.address == ClearFlags(item.address)
    ensures r.item.(address := item.address) == item
  {
    var t' := Erase(t, item.id);
    EraseKeeps(t, item.id);
    assert !InTree(t, item.id) ==> t' == t by {
      if !InTree(t, item.id) { EraseNone(t, item.id); }
    }
    assert InTree(t, item.id) ==> |t'| < |t| by {
      if InTree(t, item.id) { EraseShrinks(t, item.id); }
    }
    URemoved(t', c.(pagesUnshared := c.pagesUnshared - 1), item.(address := ClearFlags(item.address)))
  }

  /** Erasing one item keeps every other. */
  lemma {:induction false} EraseKeeps(t: UTree, id: ItemId)
    ensures forall k :: 0 <= k < |t| && t[k].item != id ==> t[k] in Erase(t, id)
    decreases |t|
  {
    if |t| > 0 {
      var rest := Erase(t[1..], id);
      EraseKeeps(t[1..], id);
      assert forall k :: 1 <= k < |t| ==> t[k] == t[1..][k - 1];
      if t[0].item == id {
        assert Erase(t, id) == rest;
      } else {
        assert Erase(t, id) == [t[0]] + rest;
      }
    }
  }

  /** Erasing an item that is in the tree shortens it. */
  lemma {:induction false} EraseShrinks(t: UTree, id: ItemId)
    requires InTree(t, id)
    ensures |Erase(t, id)| < |t|
    decreases |t|
  {
    if t[0].item != id {
      var k :| 0 <= k < |t| && t[k].item == id;
      assert t[1..][k - 1].item == id;
      EraseShrinks(t[1..], id);
    }
  }

  lemma RemoveUnstableKeepsSorted(t: UTree, c: Counters, item: RmapItem)
    requires Sorted(t) && HasUnstableFlag(item.address)
    ensures Sorted(RemoveUnstableRmapItem(t, c, item).tree)
  {
    EraseKeepsSorted(t, item.id);
  }

  /** Search-insert followed by the removal of the item it inserted gives the
      tree and the counters back. */
  lemma InsertThenRemoveRestores(t: UTree, c: Counters, item: RmapItem, x: Content, scanRound: nat)
    requires Sorted(t) && Untagged(item.address) && !InTree(t, item.id)
    ensures var s := UnstableTreeSearchInsert(t, c, item, x, true, scanRound);
      s.outcome.Inserted? ==>
        var r := RemoveUnstableRmapItem(s.tree, s.counters, s.item);
        && r.tree == t
        && r.counters == c
        && r.item == item
  {
    var s := UnstableTreeSearchInsert(t, c, item, x, true, scanRound);
    if s.outcome.Inserted? {
      EraseInserted(t, UEntry(x, item.id));
      UntagRestores(item.address, scanRound);
    }
  }

  lemma {:induction false} EraseSplit(a: UTree, e: UEntry, b: UTree)
    requires forall k :: 0 <= k < |a| ==> a[k].item != e.item
    requires forall k :: 0 <= k < |b| ==> b[k].item != e.item
    ensures Erase(a + [e] + b, e.item) == a + b
    decreases |a|
  {
    if |a| == 0 {
      assert a + [e] + b == [e] + b;
      assert a + b == b;
      EraseHead(e, b);
      EraseNone(b, e.item);
    } else {
      var tail := a[1..];
      assert forall k :: 0 <= k < |tail| ==> tail[k].item != e.item by {
        forall k | 0 <= k < |tail| ensures tail[k].item != e.item { assert tail[k] == a[k + 1]; }
      }
      EraseSplit(tail, e, b);
      EraseSplitStep(a, e, b);
    }
  }

  /** The inductive step of EraseSplit: an item before `e` stays in front. */
  lemma EraseSplitStep(a: UTree, e: UEntry, b: UTree)
    requires |a| > 0 && a[0].item != e.item
    requires Erase(a[1..] + [e] + b, e.item) == a[1..] + b
    ensures Erase(a + [e] + b, e.item) == a + b
  {
    ConsSplit(a, [e] + b);
    ConsSplit(a, b);
    assert a[1..] + [e] + b == a[1..] + ([e] + b);
    EraseCons(a[0], a[1..] + ([e] + b), e.item);
    assert a + [e] + b == a + ([e] + b);
  }

  /** A non-empty sequence followed by `b` is its head before its tail and `b`. */
  lemma ConsSplit(a: UTree, b: UTree)
    requires |a| > 0
    ensures a + b == [a[0]] + (a[1..] + b)
  {
  }

  /** Erasing the first item drops it. */
  lemma EraseHead(x: UEntry, t: UTree)
    ensures Erase([x] + t, x.item) == Erase(t, x.item)
  {
    assert ([x] + t)[1..] == t;
  }

  /** Erasing an item other than the first keeps the first. */
  lemma EraseCons(x: UEntry, t: UTree, id: ItemId)
    requires x.item != id
    ensures Erase([x] + t, id) == [x] + Erase(t, id)
  {
    assert ([x] + t)[1..] == t;
  }

  /** Erasing an item that is not in the tree changes nothing. */
  lemma {:induction false} EraseNone(t: UTree, id: ItemId)
    requires !InTree(t, id)
    ensures Erase(t, id) == t
    decreases |t|
  {
    if |t| > 0 {
      forall k | 0 <= k < |t| - 1 ensures t[1..][k].item != id {
        assert t[1..][k] == t[k + 1];
      }
      EraseNone(t[1..], id);
      assert t == [t[0]] + t[1..];
    }
  }

  lemma UntagRestores(address: Addr, scanRound: nat)
    requires PageAligned(address)
    ensures ClearFlags(TagUnstable(address, scanRound)) == address
  {
  }

  // ---------------------------------------------------------------------
  // Round reset and the 8-bit age test

  /** Start of a pass over the scan list: when the crawler has moved on,
      scan_round catches up with ksm_crawl_round and the unstable tree is
      emptied. */
  function RoundReset(scanRound: nat, crawlRound: nat, t: UTree): (r: (nat, UTree))
    ensures r.0 >= scanRound && r.0 >= crawlRound
    ensures r.0 == scanRound ==> r.1 == t
    ensures r.0 != scanRound ==> r.1 == [] && r.0 == crawlRound
  {
    if scanRound < crawlRound then (crawlRound, []) else (scanRound, t)
  }

  /** Successive starts of a pass, one for each crawl round in `crawls`. */
  function ResetAll(scanRound: nat, crawls: seq<nat>, t: UTree): (r: (nat, UTree))
    ensures r.0 >= scanRound
    ensures r.0 == scanRound ==> r.1 == t
    ensures r.0 != scanRound ==> r.1 == []
    decreases |crawls|
  {
    if |crawls| == 0 then (scanRound, t)
    else
      var n := RoundReset(scanRound, crawls[0], t);
      ResetAll(n.0, crawls[1..], n.1)
  }

  /** scan_round never passes the crawl rounds it catches up with. */
  lemma {:induction false} ResetAllBelow(scanRound: nat, crawls: seq<nat>, t: UTree, b: nat)
    requires scanRound < b
    requires forall i :: 0 <= i < |crawls| ==> crawls[i] < b
    ensures ResetAll(scanRound, crawls, t).0 < b
    decreases |crawls|
  {
    if |crawls| > 0 {
      var n := RoundReset(scanRound, crawls[0], t);
      assert forall i :: 0 <= i < |crawls| - 1 ==> crawls[1..][i] == crawls[i + 1];
      ResetAllBelow(n.0, crawls[1..], n.1, b);
    }
  }

  /** mm/lksm.c erases an unstable rmap_item from the tree when the 8-bit age
      `(unsigned char)(scan_round - address)` is zero, taking that to mean the
      item was inserted during the current round. */
  predicate EraseAsWritten(scanRound: nat, address: Addr) {
    Age(scanRound, address) == 0
  }

  /** Outcome of the unstable removal as written: `Corrupt` stands for
      rb_erase of a node that is not in the current tree. */
  datatype AsWritten = Erased(tree: UTree) | Cleared(tree: UTree) | Corrupt

  function RemoveUnstableAsWritten(t: UTree, item: RmapItem, scanRound: nat): (r: AsWritten)
    ensures r.Corrupt? <==> EraseAsWritten(scanRound, item.address) && !InTree(t, item.id)
    ensures r.Erased? ==> r.tree == Erase(t, item.id)
    ensures r.Cleared? ==> r.tree == t
  {
    if EraseAsWritten(scanRound, item.address) then
      if InTree(t, item.id) then Erased(Erase(t, item.id)) else Corrupt
    else Cleared(t)
  }

  /** Within 256 rounds of tagging, the age is zero exactly in the tagging
      round, so the test does what it means. */
  lemma AgeZeroWithinWindow(address: Addr, round: nat, d: nat)
    requires PageAligned(address) && d < 256
    ensures EraseAsWritten(round + d, TagUnstable(address, round)) <==> d == 0
  {
    var x := TagUnstable(address, round);
    assert x % 0x100 == round % 0x100;
    assert x == 0x100 * (x / 0x100) + round % 0x100;
    assert round == 0x100 * (round / 0x100) + round % 0x100;
    var m := round / 0x100 - x / 0x100;
    assert round + d - x == 0x100 * m + d;
    assert (0x100 * m + d) % 0x100 == d;
  }

  /** An rmap_item tagged in round `round` and left in place while the tree
      was reset, then removed when scan_round has advanced by 256, has age
      zero: the source erases it from a tree it is not in. The removal the
      model uses leaves that tree alone. */
  lemma AgeWrapErasesForeignNode(address: Addr, round: nat, id: ItemId)
    requires PageAligned(address)
    ensures var item := RmapItem(id, TagUnstable(address, round), 0, None);
      && RoundReset(round, round + 256, [UEntry(0, id)]).1 == []
      && RemoveUnstableAsWritten([], item, round + 256).Corrupt?
      && RemoveUnstableRmapItem([], Counters(0, 0, 1, 1, 0, 0, 0, 0, 0, 0), item).tree == []
  {
    var x := TagUnstable(address, round);
    var item := RmapItem(id, x, 0, None);
    assert x % 0x100 == round % 0x100;
    assert x == 0x100 * (x / 0x100) + round % 0x100;
    assert round == 0x100 * (round / 0x100) + round % 0x100;
    assert round + 256 - x == 0x100 * (round / 0x100 + 1 - x / 0x100);
    assert Age(round + 256, item.address) == 0;
    assert !InTree([], id);
  }

  /** An item inserted in round `r` and removed after passes started at
      crawl rounds below r + 256: the removal as written erases it from the
      tree exactly when no pass moved scan_round, never touches a tree it is
      not in, and leaves the same tree as the removal the model uses. */
  lemma ResetsDecideErase(t: UTree, c: Counters, item: RmapItem, x: Content, r: nat, crawls: seq<nat>)
    requires Sorted(t) && Untagged(item.address) && !InTree(t, item.id)
    requires forall i :: 0 <= i < |crawls| ==> crawls[i] < r + 256
    ensures var s := UnstableTreeSearchInsert(t, c, item, x, true, r);
      s.outcome.Inserted? ==>
        var e := ResetAll(r, crawls, s.tree);
        var w := RemoveUnstableAsWritten(e.1, s.item, e.0);
        && (w.Erased? <==> e.0 == r)
        && !w.Corrupt?
        && w.tree == RemoveUnstableRmapItem(e.1, s.counters, s.item).tree
  {
    var s := UnstableTreeSearchInsert(t, c, item, x, true, r);
    if s.outcome.Inserted? {
      var e := ResetAll(r, crawls, s.tree);
      ResetAllBelow(r, crawls, s.tree, r + 256);
      RemoveTaggedAfter(e.1, s.counters, s.item, item.address, r, e.0);
    }
  }

  /** The removal in round `r2` of an item tagged in round `r` < r2 + 256, from
      a tree that holds it when no round has passed and is empty otherwise. */
  lemma RemoveTaggedAfter(t: UTree, c: Counters, item: RmapItem, address: Addr, r: nat, r2: nat)
    requires PageAligned(address) && item.address == TagUnstable(address, r)
    requires r <= r2 < r + 256
    requires r2 == r ==> InTree(t, item.id)
    requires r2 != r ==> t == []
    ensures var w := RemoveUnstableAsWritten(t, item, r2);
      && (w.Erased? <==> r2 == r)
      && !w.Corrupt?
      && w.tree == RemoveUnstableRmapItem(t, c, item).tree
  {
    AgeZeroWithinWindow(address, r, r2 - r);
  }
}
