/**
 The stable tree of mm/lksm.c: an index of merged (write-protected) KSM pages
 ordered by content. A tree position holds either a regular stable node or,
 once one page would exceed the sharing cap, a chain whose dups are distinct
 KSM pages with identical content.

 The red-black tree is modelled by its in-order sequence. The tagged
 `Kind` variant replaces the source's overlapping union: a chain is marked
 in the source by rmap_hlist_len == STABLE_NODE_CHAIN, which `RmapHlistLen`
 reproduces. Whether a node's KSM page is still its own (get_ksm_page) is the
 set `live` of pages still mapped as KSM pages; a node found stale is removed from the tree.
 */
module StableTree {
  import opened KsmDefs

  /** A regular stable node or a dup of a chain: its KSM page, the rmap_items
      hanging off it (newest first) and rmap_hlist_len. */
  datatype StableNode = StableNode(kpfn: Kpfn, hlist: seq<ItemId>, rmapHlistLen: int)

  datatype Kind = Regular(node: StableNode) | Chain(dups: seq<StableNode>)

  datatype Entry = Entry(content: Content, kind: Kind)

  /** In-order sequence of the stable tree. */
  type Tree = seq<Entry>

  /** BUG_ON / VM_BUG_ON that fires, or a regular result. */
  datatype Outcome<T> = Done(value: T) | Bug

  /** The rmap_hlist_len field of the node at a tree position. */
  function RmapHlistLen(k: Kind): int {
    match k
    case Regular(n) => n.rmapHlistLen
    case Chain(_) => STABLE_NODE_CHAIN
  }

  predicate Sorted(t: Tree) {
    forall i, j :: 0 <= i < j < |t| ==> t[i].content < t[j].content
  }

  predicate NodeWf(n: StableNode) {
    n.rmapHlistLen == |n.hlist|
  }

  predicate DupsWf(ds: seq<StableNode>) {
    forall j :: 0 <= j < |ds| ==> NodeWf(ds[j])
  }

  predicate KindWf(k: Kind) {
    match k
    case Regular(n) => NodeWf(n)
    case Chain(ds) => DupsWf(ds)
  }

  /** Ordered by content, and every node's rmap_hlist_len counts its list. */
  predicate Wf(t: Tree) {
    && Sorted(t)
    && forall i :: 0 <= i < |t| ==> KindWf(t[i].kind)
  }

  // ---------------------------------------------------------------------
  // What the global counters should say about a tree.

  /** A node with at least one mapping is one shared page ... */
  function NodeShared(n: StableNode): int {
    if |n.hlist| > 0 then 1 else 0
  }

  /** ... and every further mapping is one more page sharing it. */
  function NodeSharing(n: StableNode): int {
    if |n.hlist| > 0 then |n.hlist| - 1 else 0
  }

  function KindShared(k: Kind): int {
    match k
    case Regular(n) => NodeShared(n)
    case Chain(ds) => Sum(ds, NodeShared)
  }

  function KindSharing(k: Kind): int {
    match k
    case Regular(n) => NodeSharing(n)
    case Chain(ds) => Sum(ds, NodeSharing)
  }

  function KindChains(k: Kind): int {
    if k.Chain? then 1 else 0
  }

  function KindDups(k: Kind): int {
    match k
    case Regular(_) => 0
    case Chain(ds) => |ds|
  }

  /** The nodes an entry holds: its regular node or its chain's dups. */
  function Nodes(k: Kind): seq<StableNode> {
    match k
    case Regular(n) => [n]
    case Chain(ds) => ds
  }

  function EntryShared(e: Entry): int { KindShared(e.kind) }
  function EntrySharing(e: Entry): int { KindSharing(e.kind) }
  function EntryChains(e: Entry): int { KindChains(e.kind) }
  function EntryDups(e: Entry): int { KindDups(e.kind) }

  /** pages_shared, pages_sharing, stable_node_chains and stable_node_dups
      agree with the tree they describe. */
  predicate Consistent(t: Tree, c: Counters) {
    && c.pagesShared == Sum(t, EntryShared)
    && c.pagesSharing == Sum(t, EntrySharing)
    && c.chains == Sum(t, EntryChains)
    && c.dups == Sum(t, EntryDups)
  }

  // ---------------------------------------------------------------------
  // The sharing cap.

  /** __is_page_sharing_candidate: the node still has a mapping and can take
      `offset` more merges in addition to the one under way. The VM_BUG_ON on
      a negative length is this predicate's precondition. */
  predicate IsSharingCandidate(n: StableNode, offset: int, maxSharing: int)
    requires n.rmapHlistLen >= 0
  {
    n.rmapHlistLen != 0 && n.rmapHlistLen + offset < maxSharing
  }

  // ---------------------------------------------------------------------
  // Addressing one node: a tree position, or a dup inside a chain.

  datatype Ref = Top(i: nat) | InChain(i: nat, j: nat)

  predicate ValidRef(t: Tree, r: Ref) {
    match r
    case Top(i) => i < |t|
    case InChain(i, j) => i < |t| && t[i].kind.Chain? && j < |t[i].kind.dups|
  }

  /** The reference designates a regular node or a dup, not a chain. */
  predicate NodeRef(t: Tree, r: Ref) {
    ValidRef(t, r) && (r.Top? ==> t[r.i].kind.Regular?)
  }

  /** rmap_hlist_len of whatever the reference designates. */
  function TargetLen(t: Tree, r: Ref): int
    requires ValidRef(t, r)
  {
    match r
    case Top(i) => RmapHlistLen(t[i].kind)
    case InChain(i, j) => t[i].kind.dups[j].rmapHlistLen
  }

  function NodeAt(t: Tree, r: Ref): StableNode
    requires NodeRef(t, r)
  {
    match r
    case Top(i) => t[i].kind.node
    case InChain(i, j) => t[i].kind.dups[j]
  }

  function WithNode(t: Tree, r: Ref, n: StableNode): (t': Tree)
    requires NodeRef(t, r)
    ensures |t'| == |t| && NodeRef(t', r) && NodeAt(t', r) == n
  {
    match r
    case Top(i) => t[i := Entry(t[i].content, Regular(n))]
    case InChain(i, j) => t[i := Entry(t[i].content, Chain(t[i].kind.dups[j := n]))]
  }

  /** `t'` differs from `t` at most in the node `r` designates. */
  predicate SameExcept(t: Tree, t': Tree, r: Ref)
    requires NodeRef(t, r)
  {
    && |t'| == |t|
    && (forall i :: 0 <= i < |t| ==> t'[i].content == t[i].content)
    && (forall i :: 0 <= i < |t| && i != r.i ==> t'[i] == t[i])
    && (r.InChain? ==>
          && t'[r.i].kind.Chain?
          && |t'[r.i].kind.dups| == |t[r.i].kind.dups|
          && forall j :: 0 <= j < |t[r.i].kind.dups| && j != r.j ==>
               t'[r.i].kind.dups[j] == t[r.i].kind.dups[j])
  }

  lemma WithNodeSameExcept(t: Tree, r: Ref, n: StableNode)
    requires NodeRef(t, r)
    ensures SameExcept(t, WithNode(t, r, n), r)
  {
  }

  /** Replacing one node changes each tree total by that node's difference. */
  lemma WithNodeTotals(t: Tree, r: Ref, n: StableNode)
    requires NodeRef(t, r)
    ensures Sum(WithNode(t, r, n), EntryShared) == Sum(t, EntryShared) - NodeShared(NodeAt(t, r)) + NodeShared(n)
    ensures Sum(WithNode(t, r, n), EntrySharing) == Sum(t, EntrySharing) - NodeSharing(NodeAt(t, r)) + NodeSharing(n)
    ensures Sum(WithNode(t, r, n), EntryChains) == Sum(t, EntryChains)
    ensures Sum(WithNode(t, r, n), EntryDups) == Sum(t, EntryDups)
  {
    var i := r.i;
    var e' := WithNode(t, r, n)[i];
    assert WithNode(t, r, n) == t[i := e'];
    SumUpdate(t, i, e', EntryShared);
    SumUpdate(t, i, e', EntrySharing);
    SumUpdate(t, i, e', EntryChains);
    SumUpdate(t, i, e', EntryDups);
    if r.InChain? {
      var ds := t[i].kind.dups;
      SumUpdate(ds, r.j, n, NodeShared);
      SumUpdate(ds, r.j, n, NodeSharing);
    }
  }

  lemma WithNodeWf(t: Tree, r: Ref, n: StableNode)
    requires NodeRef(t, r) && Wf(t) && NodeWf(n)
    ensures Wf(WithNode(t, r, n))
  {
    var t' := WithNode(t, r, n);
    forall i | 0 <= i < |t'|
      ensures KindWf(t'[i].kind)
    {
      if i == r.i && r.InChain? {
        assert t'[i].kind.dups == t[i].kind.dups[r.j := n];
      }
    }
  }

  // ---------------------------------------------------------------------
  // stable_tree_append

  datatype Appended = Appended(tree: Tree, counters: Counters, item: RmapItem, overflowWarning: bool)

  /** stable_tree_append: hang `item` off the node `r` designates. BUG_ON when
      the target's rmap_hlist_len is negative, which is always the case for a
      chain. The first mapping of a node makes it a shared page; every later
      one is a page sharing it. `overflowWarning` is the condition the
      WARN_ON_ONCE tests (the node exceeds ksm_max_page_sharing without the
      fork bypass); it is raised on every such append, since the once-only
      logging is not modelled. */
  function StableTreeAppend(t: Tree, c: Counters, r: Ref, item: RmapItem, bypass: bool, maxSharing: int)
    : (res: Outcome<Appended>)
    requires ValidRef(t, r)
    ensures res.Bug? <==> TargetLen(t, r) < 0
    ensures r.Top? && t[r.i].kind.Chain? ==> res.Bug?
    ensures res.Done? ==>
      var a := res.value;
      var n := NodeAt(t, r);
      && NodeRef(a.tree, r)
      && SameExcept(t, a.tree, r)
      && NodeAt(a.tree, r).kpfn == n.kpfn
      && NodeAt(a.tree, r).rmapHlistLen == n.rmapHlistLen + 1
      && NodeAt(a.tree, r).hlist == [item.id] + n.hlist
      && a.item.id == item.id
      && a.item.head == Some(n.kpfn)
      && HasStableFlag(a.item.address)
      && PageOf(a.item.address) == PageOf(item.address)
      && (|n.hlist| == 0 ==> a.counters.pagesShared == c.pagesShared + 1 && a.counters.pagesSharing == c.pagesSharing)
      && (|n.hlist| > 0 ==> a.counters.pagesShared == c.pagesShared && a.counters.pagesSharing == c.pagesSharing + 1)
      && a.counters.nrMerged - c.nrMerged == a.counters.pagesSharing - c.pagesSharing
      && a.counters.slotNrMerged - c.slotNrMerged == a.counters.pagesSharing - c.pagesSharing
      && a.counters.(pagesShared := c.pagesShared, pagesSharing := c.pagesSharing,
                     slotNrMerged := c.slotNrMerged, nrMerged := c.nrMerged) == c
      && (a.overflowWarning <==> !bypass && n.rmapHlistLen + 1 > maxSharing)
  {
    if TargetLen(t, r) < 0 then Bug
    else
      var n := NodeAt(t, r);
      var n' := StableNode(n.kpfn, [item.id] + n.hlist, n.rmapHlistLen + 1);
      var item' := item.(address := SetStableFlag(item.address), head := Some(n.kpfn));
      var c' :=
        if |n.hlist| > 0 then
          c.(pagesSharing := c.pagesSharing + 1, slotNrMerged := c.slotNrMerged + 1, nrMerged := c.nrMerged + 1)
        else
          c.(pagesShared := c.pagesShared + 1);
      WithNodeSameExcept(t, r, n');
      Done(Appended(WithNode(t, r, n'), c', item', !bypass && n'.rmapHlistLen > maxSharing))
  }

  /** Appending keeps the tree well formed and the counters in agreement with it. */
  lemma AppendKeepsConsistent(t: Tree, c: Counters, r: Ref, item: RmapItem, bypass: bool, maxSharing: int)
    requires Wf(t) && Consistent(t, c) && ValidRef(t, r)
    ensures var res := StableTreeAppend(t, c, r, item, bypass, maxSharing);
      res.Done? ==> Wf(res.value.tree) && Consistent(res.value.tree, res.value.counters)
  {
    var res := StableTreeAppend(t, c, r, item, bypass, maxSharing);
    if res.Done? {
      var n := NodeAt(t, r);
      var n' := StableNode(n.kpfn, [item.id] + n.hlist, n.rmapHlistLen + 1);
      assert res.value.tree == WithNode(t, r, n');
      WithNodeTotals(t, r, n');
      assert NodeWf(n) by {
        if r.InChain? { assert DupsWf(t[r.i].kind.dups); }
      }
      WithNodeWf(t, r, n');
    }
  }

  /** The sharing cap: a merge into a node that is a sharing candidate never
      takes it past ksm_max_page_sharing. */
  lemma AppendToCandidateWithinCap(t: Tree, c: Counters, r: Ref, item: RmapItem, maxSharing: int)
    requires NodeRef(t, r) && NodeAt(t, r).rmapHlistLen >= 0
    requires IsSharingCandidate(NodeAt(t, r), 0, maxSharing)
    ensures var res := StableTreeAppend(t, c, r, item, false, maxSharing);
      && res.Done?
      && !res.value.overflowWarning
      && NodeAt(res.value.tree, r).rmapHlistLen <= maxSharing
  {
  }

  // ---------------------------------------------------------------------
  // remove_node_from_stable_tree

  datatype NodeRemoved = NodeRemoved(tree: Tree, counters: Counters, released: seq<ItemId>)

  /** Counters after every mapping of `n` is dropped: all but the last one
      were sharing (and count as broken), the last one was the shared page. */
  function DropMappings(c: Counters, n: StableNode): (c': Counters)
    ensures c'.pagesShared == c.pagesShared - NodeShared(n)
    ensures c'.pagesSharing == c.pagesSharing - NodeSharing(n)
    ensures c'.nrBroken == c.nrBroken + NodeSharing(n)
    ensures c'.slotNrBroken == c.slotNrBroken + NodeSharing(n)
    ensures c'.(pagesShared := c.pagesShared, pagesSharing := c.pagesSharing,
                nrBroken := c.nrBroken, slotNrBroken := c.slotNrBroken) == c
  {
    if |n.hlist| == 0 then c
    else c.(pagesShared := c.pagesShared - 1,
            pagesSharing := c.pagesSharing - (|n.hlist| - 1),
            nrBroken := c.nrBroken + (|n.hlist| - 1),
            slotNrBroken := c.slotNrBroken + (|n.hlist| - 1))
  }

  /** Remove the node `r` designates from the tree (a stale node): a dup
      leaves its chain, a regular node leaves the tree. Every rmap_item on it
      is released (its flags are cleared by the caller). A chain left without
      dups stays in the tree; lookups prune it. */
  function RemoveNodeFromStableTree(t: Tree, c: Counters, r: Ref): (res: Outcome<NodeRemoved>)
    requires NodeRef(t, r)
    ensures res.Bug? <==> NodeAt(t, r).rmapHlistLen < 0
    ensures res.Done? ==>
      var d := res.value;
      && d.released == NodeAt(t, r).hlist
      && (r.Top? ==> d.tree == t[..r.i] + t[r.i+1..] && d.counters.dups == c.dups)
      && (r.InChain? ==>
            var ds := t[r.i].kind.dups;
            && d.tree == t[r.i := Entry(t[r.i].content, Chain(ds[..r.j] + ds[r.j+1..]))]
            && d.counters.dups == c.dups - 1)
      && d.counters.pagesShared == c.pagesShared - NodeShared(NodeAt(t, r))
      && d.counters.pagesSharing == c.pagesSharing - NodeSharing(NodeAt(t, r))
      && d.counters.nrBroken == c.nrBroken + NodeSharing(NodeAt(t, r))
      && d.counters.chains == c.chains
      && d.counters.pagesUnshared == c.pagesUnshared
  {
    var n := NodeAt(t, r);
    if n.rmapHlistLen < 0 then Bug
    else
      var c1 := DropMappings(c, n);
      match r
      case Top(i) => Done(NodeRemoved(t[..i] + t[i+1..], c1, n.hlist))
      case InChain(i, j) =>
        var ds := t[i].kind.dups;
        Done(NodeRemoved(t[i := Entry(t[i].content, Chain(ds[..j] + ds[j+1..]))],
                         c1.(dups := c1.dups - 1), n.hlist))
  }

  lemma SortedRemove(t: Tree, i: nat)
    requires Sorted(t) && i < |t|
    ensures Sorted(t[..i] + t[i+1..])
  {
    var t' := t[..i] + t[i+1..];
    forall a, b | 0 <= a < b < |t'|
      ensures t'[a].content < t'[b].content
    {
      var a0 := if a < i then a else a + 1;
      var b0 := if b < i then b else b + 1;
      assert t'[a] == t[a0] && t'[b] == t[b0];
    }
  }

  lemma RemoveNodeKeepsConsistent(t: Tree, c: Counters, r: Ref)
    requires Wf(t) && Consistent(t, c) && NodeRef(t, r)
    ensures var res := RemoveNodeFromStableTree(t, c, r);
      res.Done? ==> Wf(res.value.tree) && Consistent(res.value.tree, res.value.counters)
  {
    var res := RemoveNodeFromStableTree(t, c, r);
    if res.Done? {
      match r
      case Top(i) => RemoveTopConsistent(t, c, i);
      case InChain(i, j) => RemoveDupConsistent(t, c, i, j);
    }
  }

  lemma RemoveTopConsistent(t: Tree, c: Counters, i: nat)
    requires Wf(t) && Consistent(t, c) && NodeRef(t, Top(i)) && NodeAt(t, Top(i)).rmapHlistLen >= 0
    ensures var d := RemoveNodeFromStableTree(t, c, Top(i)).value;
      Wf(d.tree) && Consistent(d.tree, d.counters)
  {
    SumRemove(t, i, EntryShared);
    SumRemove(t, i, EntrySharing);
    SumRemove(t, i, EntryChains);
    SumRemove(t, i, EntryDups);
    RemoveEntryWf(t, i);
  }

  lemma DupsRemoveWf(ds: seq<StableNode>, j: nat)
    requires DupsWf(ds) && j < |ds|
    ensures DupsWf(ds[..j] + ds[j+1..])
  {
    var ds' := ds[..j] + ds[j+1..];
    forall k | 0 <= k < |ds'| ensures NodeWf(ds'[k]) {
      assert ds'[k] == (if k < j then ds[k] else ds[k + 1]);
    }
  }

  lemma RemoveDupConsistent(t: Tree, c: Counters, i: nat, j: nat)
    requires Wf(t) && Consistent(t, c) && NodeRef(t, InChain(i, j)) && NodeAt(t, InChain(i, j)).rmapHlistLen >= 0
    ensures var d := RemoveNodeFromStableTree(t, c, InChain(i, j)).value;
      Wf(d.tree) && Consistent(d.tree, d.counters)
  {
    var ds := t[i].kind.dups;
    var ds' := ds[..j] + ds[j+1..];
    var e' := Entry(t[i].content, Chain(ds'));
    SumRemove(ds, j, NodeShared);
    SumRemove(ds, j, NodeSharing);
    SumUpdate(t, i, e', EntryShared);
    SumUpdate(t, i, e', EntrySharing);
    SumUpdate(t, i, e', EntryChains);
    SumUpdate(t, i, e', EntryDups);
    assert KindWf(t[i].kind);
    DupsRemoveWf(ds, j);
    ReplaceKindWf(t, i, Chain(ds'));
  }

  // ---------------------------------------------------------------------
  // The stable branch of remove_rmap_item_from_tree

  /** `s` without its first occurrence of `x` (hlist_del). */
  function RemoveFirst(s: seq<ItemId>, x: ItemId): (s': seq<ItemId>)
    requires x in s
    ensures |s'| == |s| - 1
    ensures multiset(s') == multiset(s) - multiset{x}
  {
    if s[0] == x then
      assert s == [s[0]] + s[1..];
      s[1..]
    else
      assert s == [s[0]] + s[1..];
      [s[0]] + RemoveFirst(s[1..], x)
  }

  datatype RmapRemoved = RmapRemoved(tree: Tree, counters: Counters, item: RmapItem, released: seq<ItemId>)

  /** The stable branch of remove_rmap_item_from_tree. `r` is the node the
      item's head points to. If that node's KSM page is stale, the whole node
      goes (remove_node_from_stable_tree); otherwise only this mapping leaves
      it: pages_sharing drops while mappings remain, else pages_shared drops.
      An emptied node stays in the tree. Either way the item's flags are
      cleared. */
  function RemoveStableRmapItem(t: Tree, c: Counters, r: Ref, item: RmapItem, live: set<Kpfn>)
    : (res: Outcome<RmapRemoved>)
    requires NodeRef(t, r) && item.head == Some(NodeAt(t, r).kpfn) && item.id in NodeAt(t, r).hlist
    ensures res.Bug? ==> !(NodeAt(t, r).kpfn in live) && NodeAt(t, r).rmapHlistLen < 0
    ensures res.Done? ==>
      var d := res.value;
      && d.item.id == item.id
      && d.item.address == ClearFlags(item.address)
    ensures res.Done? && (NodeAt(t, r).kpfn in live) ==>
      var d := res.value;
      var n := NodeAt(t, r);
      && d.released == []
      && d.item.head == None
      && NodeRef(d.tree, r) && SameExcept(t, d.tree, r)
      && NodeAt(d.tree, r).kpfn == n.kpfn
      && multiset(NodeAt(d.tree, r).hlist) == multiset(n.hlist) - multiset{item.id}
      && NodeAt(d.tree, r).rmapHlistLen == n.rmapHlistLen - 1
      && (|n.hlist| == 1 ==> d.counters.pagesShared == c.pagesShared - 1 && d.counters.pagesSharing == c.pagesSharing)
      && (|n.hlist| > 1 ==> d.counters.pagesShared == c.pagesShared && d.counters.pagesSharing == c.pagesSharing - 1)
      && d.counters.nrBroken - c.nrBroken == c.pagesSharing - d.counters.pagesSharing
      && d.counters.dups == c.dups && d.counters.chains == c.chains
    ensures res.Done? && !(NodeAt(t, r).kpfn in live) ==>
      var d := res.value;
      && d.released == NodeAt(t, r).hlist
      && RemoveNodeFromStableTree(t, c, r) == Done(NodeRemoved(d.tree, d.counters, d.released))
  {
    var n := NodeAt(t, r);
    if !(n.kpfn in live) then
      match RemoveNodeFromStableTree(t, c, r)
      case Bug => Bug
      case Done(d) => Done(RmapRemoved(d.tree, d.counters, item.(address := ClearFlags(item.address)), d.released))
    else
      Done(RemoveMapping(t, c, r, item))
  }

  /** One mapping leaves a node whose KSM page is still its own. */
  function RemoveMapping(t: Tree, c: Counters, r: Ref, item: RmapItem): (d: RmapRemoved)
    requires NodeRef(t, r) && item.id in NodeAt(t, r).hlist
    ensures var n := NodeAt(t, r);
      && d.item == item.(address := ClearFlags(item.address), head := None)
      && d.released == []
      && NodeRef(d.tree, r) && SameExcept(t, d.tree, r)
      && NodeAt(d.tree, r) == StableNode(n.kpfn, RemoveFirst(n.hlist, item.id), n.rmapHlistLen - 1)
      && (|n.hlist| == 1 ==> d.counters == c.(pagesShared := c.pagesShared - 1))
      && (|n.hlist| > 1 ==> d.counters == c.(pagesSharing := c.pagesSharing - 1,
                                             slotNrBroken := c.slotNrBroken + 1, nrBroken := c.nrBroken + 1))
  {
    var n := NodeAt(t, r);
    var hlist' := RemoveFirst(n.hlist, item.id);
    var n' := StableNode(n.kpfn, hlist', n.rmapHlistLen - 1);
    var c' :=
      if |hlist'| > 0 then
        c.(pagesSharing := c.pagesSharing - 1, slotNrBroken := c.slotNrBroken + 1, nrBroken := c.nrBroken + 1)
      else
        c.(pagesShared := c.pagesShared - 1);
    WithNodeSameExcept(t, r, n');
    RmapRemoved(WithNode(t, r, n'), c', item.(address := ClearFlags(item.address), head := None), [])
  }

  /** Removing a mapping exactly reverses the counter effect of the append that added it. */
  lemma RemoveStableRmapKeepsConsistent(t: Tree, c: Counters, r: Ref, item: RmapItem, live: set<Kpfn>)
    requires Wf(t) && Consistent(t, c)
    requires NodeRef(t, r) && item.head == Some(NodeAt(t, r).kpfn) && item.id in NodeAt(t, r).hlist
    ensures var res := RemoveStableRmapItem(t, c, r, item, live);
      res.Done? ==> Wf(res.value.tree) && Consistent(res.value.tree, res.value.counters)
  {
    if !(NodeAt(t, r).kpfn in live) {
      RemoveNodeKeepsConsistent(t, c, r);
    } else {
      RemoveMappingConsistent(t, c, r, item);
    }
  }

  lemma RemoveMappingConsistent(t: Tree, c: Counters, r: Ref, item: RmapItem)
    requires Wf(t) && Consistent(t, c)
    requires NodeRef(t, r) && item.id in NodeAt(t, r).hlist
    ensures var d := RemoveMapping(t, c, r, item); Wf(d.tree) && Consistent(d.tree, d.counters)
  {
    var n := NodeAt(t, r);
    var d := RemoveMapping(t, c, r, item);
    var n' := StableNode(n.kpfn, RemoveFirst(n.hlist, item.id), n.rmapHlistLen - 1);
    assert d.tree == WithNode(t, r, n');
    assert NodeWf(n) by {
      if r.InChain? { assert DupsWf(t[r.i].kind.dups); }
    }
    WithNodeTotals(t, r, n');
    WithNodeWf(t, r, n');
    if |n'.hlist| > 0 {
      assert NodeShared(n') == NodeShared(n) && NodeSharing(n') == NodeSharing(n) - 1;
    } else {
      assert NodeShared(n') == NodeShared(n) - 1 && NodeSharing(n') == NodeSharing(n);
    }
  }

  /** Append followed by the removal of the same item restores the node's
      mapping count and both page counters. */
  lemma AppendThenRemoveRestores(t: Tree, c: Counters, r: Ref, item: RmapItem, maxSharing: int, live: set<Kpfn>)
    requires NodeRef(t, r) && NodeAt(t, r).rmapHlistLen >= 0 && (NodeAt(t, r).kpfn in live)
    ensures var a := StableTreeAppend(t, c, r, item, false, maxSharing);
      && a.Done?
      && var back := RemoveStableRmapItem(a.value.tree, a.value.counters, r, a.value.item, live);
      && back.Done?
      && NodeAt(back.value.tree, r).rmapHlistLen == NodeAt(t, r).rmapHlistLen
      && multiset(NodeAt(back.value.tree, r).hlist) == multiset(NodeAt(t, r).hlist)
      && back.value.counters.pagesShared == c.pagesShared
      && back.value.counters.pagesSharing == c.pagesSharing
  {
    var a := StableTreeAppend(t, c, r, item, false, maxSharing);
    var n := NodeAt(t, r);
    var na := NodeAt(a.value.tree, r);
    assert na.hlist == [item.id] + n.hlist && na.kpfn == n.kpfn;
    assert a.value.item.head == Some(na.kpfn) && item.id in na.hlist;
    RemoveAfterAppend(a.value.tree, a.value.counters, c, r, a.value.item, n, live);
  }

  /** Removing the head mapping `item` of a live node that was `n` before it
      was added, from counters that had it added to `c`. */
  lemma RemoveAfterAppend(t: Tree, ca: Counters, c: Counters, r: Ref, item: RmapItem, n: StableNode, live: set<Kpfn>)
    requires NodeRef(t, r) && NodeAt(t, r).kpfn in live
    requires NodeAt(t, r).hlist == [item.id] + n.hlist && NodeAt(t, r).rmapHlistLen == n.rmapHlistLen + 1
    requires item.head == Some(NodeAt(t, r).kpfn)
    requires |n.hlist| == 0 ==> ca.pagesShared == c.pagesShared + 1 && ca.pagesSharing == c.pagesSharing
    requires |n.hlist| > 0 ==> ca.pagesShared == c.pagesShared && ca.pagesSharing == c.pagesSharing + 1
    ensures var back := RemoveStableRmapItem(t, ca, r, item, live);
      && back.Done?
      && NodeAt(back.value.tree, r).rmapHlistLen == n.rmapHlistLen
      && multiset(NodeAt(back.value.tree, r).hlist) == multiset(n.hlist)
      && back.value.counters.pagesShared == c.pagesShared
      && back.value.counters.pagesSharing == c.pagesSharing
  {
    var na := NodeAt(t, r);
    assert item.id in na.hlist;
    var d := RemoveMapping(t, ca, r, item);
    assert RemoveStableRmapItem(t, ca, r, item, live) == Done(d);
    var nd := NodeAt(d.tree, r);
    assert nd.rmapHlistLen == n.rmapHlistLen;
    assert multiset(nd.hlist) == multiset(na.hlist) - multiset{item.id};
    assert multiset(na.hlist) == multiset{item.id} + multiset(n.hlist);
    if |n.hlist| == 0 {
      assert |na.hlist| == 1;
    } else {
      assert |na.hlist| > 1;
    }
  }

  // ---------------------------------------------------------------------
  // Walking the dups of a chain (stable_node_dup)

  /** A node that can take the merge under way: it is not a chain, it still
      has a mapping and it is below ksm_max_page_sharing
      (is_page_sharing_candidate). */
  predicate Mergeable(n: StableNode, maxSharing: int) {
    n.rmapHlistLen >= 0 && IsSharingCandidate(n, 0, maxSharing)
  }

  /** The dups whose KSM page is still theirs, in chain order. */
  function Live(ds: seq<StableNode>, live: set<Kpfn>): (l: seq<StableNode>)
    ensures |l| <= |ds|
    ensures forall k :: 0 <= k < |l| ==> (l[k].kpfn in live)
  {
    if |ds| == 0 then []
    else (if (ds[0].kpfn in live) then [ds[0]] else []) + Live(ds[1..], live)
  }

  /** The dups whose KSM page has gone: get_ksm_page removes each of them. */
  function Stale(ds: seq<StableNode>, live: set<Kpfn>): (l: seq<StableNode>)
    ensures |l| + |Live(ds, live)| == |ds|
    ensures forall k :: 0 <= k < |l| ==> !(l[k].kpfn in live)
  {
    if |ds| == 0 then []
    else (if (ds[0].kpfn in live) then [] else [ds[0]]) + Stale(ds[1..], live)
  }

  lemma LiveStaleCons(d: StableNode, x: seq<StableNode>, live: set<Kpfn>)
    ensures Live([d] + x, live) == (if d.kpfn in live then [d] else []) + Live(x, live)
    ensures Stale([d] + x, live) == (if d.kpfn in live then [] else [d]) + Stale(x, live)
  {
    assert ([d] + x)[0] == d && ([d] + x)[1..] == x;
  }

  /** `visited` dups were looked at (all of them unless the walk stopped at a
      candidate); `kept` is the chain afterwards, `stale` the dups removed on
      the way, `nr` the live dups seen and `found` the index in `kept` of
      the chosen dup. */
  datatype DupWalk = DupWalk(kept: seq<StableNode>, stale: seq<StableNode>, nr: nat, found: Option<nat>, visited: nat)

  /** The loop of stable_node_dup. Without pruning it stops at the first live
      candidate; when pruning it walks every dup and picks the first one with
      the longest rmap_hlist, so the fullest KSM page absorbs the merge. */
  function WalkDups(ds: seq<StableNode>, prune: bool, live: set<Kpfn>, maxSharing: int): (w: DupWalk)
    ensures w.visited <= |ds|
    ensures |w.kept| + |w.stale| == |ds|
    ensures prune || w.found.None? ==> w.visited == |ds|
    ensures w.found.Some? ==> w.found.value < |w.kept|
    decreases |ds|
  {
    if |ds| == 0 then DupWalk([], [], 0, None, 0)
    else
      var d := ds[0];
      if !(d.kpfn in live) then
        var w := WalkDups(ds[1..], prune, live, maxSharing);
        DupWalk(w.kept, [d] + w.stale, w.nr, w.found, w.visited + 1)
      else if Mergeable(d, maxSharing) && !prune then
        DupWalk(ds, [], 1, Some(0), 1)
      else
        var w := WalkDups(ds[1..], prune, live, maxSharing);
        var f :=
          if !Mergeable(d, maxSharing) then
            (if w.found.Some? then Some(w.found.value + 1) else None)
          else if w.found.None? || d.rmapHlistLen >= w.kept[w.found.value].rmapHlistLen then Some(0)
          else Some(w.found.value + 1);
        DupWalk([d] + w.kept, w.stale, w.nr + 1, f, w.visited + 1)
  }

  /** The walk keeps the live dups it looked at, in order, followed by the
      dups it never reached. */
  lemma {:induction false} WalkDupsKept(ds: seq<StableNode>, prune: bool, live: set<Kpfn>, maxSharing: int)
    ensures var w := WalkDups(ds, prune, live, maxSharing);
      w.kept == Live(ds[..w.visited], live) + ds[w.visited..]
    decreases |ds|
  {
    if |ds| > 0 {
      var d := ds[0];
      if d.kpfn in live && Mergeable(d, maxSharing) && !prune {
        assert WalkDups(ds, prune, live, maxSharing) == DupWalk(ds, [], 1, Some(0), 1);
        KeptFirst(ds, live);
      } else {
        WalkDupsKept(ds[1..], prune, live, maxSharing);
        WalkDupsStep(ds, prune, live, maxSharing);
        var w' := WalkDups(ds[1..], prune, live, maxSharing);
        KeptCons(ds, w'.visited, live, w'.kept);
      }
    }
  }

  /** A walk that stops at the first dup keeps the whole chain. */
  lemma KeptFirst(ds: seq<StableNode>, live: set<Kpfn>)
    requires |ds| > 0 && ds[0].kpfn in live
    ensures Live(ds[..1], live) + ds[1..] == ds
  {
    assert ds[..1] == [ds[0]] + [];
    LiveStaleCons(ds[0], [], live);
    assert ds == [ds[0]] + ds[1..];
  }

  /** Keeping or dropping the head in front of what the rest of the walk kept. */
  lemma KeptCons(ds: seq<StableNode>, v: nat, live: set<Kpfn>, kept: seq<StableNode>)
    requires 0 < |ds| && v < |ds|
    requires kept == Live(ds[1..][..v], live) + ds[1..][v..]
    ensures (if ds[0].kpfn in live then [ds[0]] else []) + kept == Live(ds[..v + 1], live) + ds[v + 1..]
  {
    PrefixCons(ds, v);
    LiveStaleCons(ds[0], ds[1..][..v], live);
    var pre: seq<StableNode> := if ds[0].kpfn in live then [ds[0]] else [];
    var l, rest := Live(ds[1..][..v], live), ds[1..][v..];
    assert pre + (l + rest) == (pre + l) + rest;
  }

  /** One step of the walk past a dup it does not stop at. */
  lemma WalkDupsStep(ds: seq<StableNode>, prune: bool, live: set<Kpfn>, maxSharing: int)
    requires |ds| > 0 && !(ds[0].kpfn in live && Mergeable(ds[0], maxSharing) && !prune)
    ensures var w, w' := WalkDups(ds, prune, live, maxSharing), WalkDups(ds[1..], prune, live, maxSharing);
      && w.visited == w'.visited + 1
      && w.kept == (if ds[0].kpfn in live then [ds[0]] else []) + w'.kept
  {
  }

  /** The dups the walk removes are exactly the stale ones it looked at, and
      `nr` counts the live ones it looked at. */
  lemma {:induction false} WalkDupsStale(ds: seq<StableNode>, prune: bool, live: set<Kpfn>, maxSharing: int)
    ensures var w := WalkDups(ds, prune, live, maxSharing);
      && w.stale == Stale(ds[..w.visited], live)
      && w.nr == |Live(ds[..w.visited], live)|
    decreases |ds|
  {
    if |ds| > 0 {
      var d := ds[0];
      var w := WalkDups(ds, prune, live, maxSharing);
      if d.kpfn in live && Mergeable(d, maxSharing) && !prune {
        assert ds[..1] == [d] + [];
        LiveStaleCons(d, [], live);
      } else {
        var w' := WalkDups(ds[1..], prune, live, maxSharing);
        WalkDupsStale(ds[1..], prune, live, maxSharing);
        var v := w'.visited;
        PrefixCons(ds, v);
        LiveStaleCons(d, ds[1..][..v], live);
      }
    }
  }

  /** The chosen dup is live and can take the merge; with none chosen, no
      dup left in the chain can. */
  lemma {:induction false} WalkDupsChoice(ds: seq<StableNode>, prune: bool, live: set<Kpfn>, maxSharing: int)
    ensures var w := WalkDups(ds, prune, live, maxSharing);
      && (w.found.Some? ==> w.kept[w.found.value].kpfn in live && Mergeable(w.kept[w.found.value], maxSharing))
      && (w.found.None? ==> forall k :: 0 <= k < |w.kept| ==> !Mergeable(w.kept[k], maxSharing))
    decreases |ds|
  {
    if |ds| > 0 {
      var d := ds[0];
      if !(d.kpfn in live && Mergeable(d, maxSharing) && !prune) {
        WalkDupsChoice(ds[1..], prune, live, maxSharing);
        var w := WalkDups(ds, prune, live, maxSharing);
        var w' := WalkDups(ds[1..], prune, live, maxSharing);
        if d.kpfn in live {
          assert w.kept == [d] + w'.kept;
        }
      }
    }
  }

  /** When pruning, the chosen dup is the first of the fullest candidates. */
  lemma {:induction false} WalkDupsPruneBest(ds: seq<StableNode>, live: set<Kpfn>, maxSharing: int)
    ensures var w := WalkDups(ds, true, live, maxSharing);
      w.found.Some? ==>
        var f := w.found.value;
        && (forall k :: 0 <= k < |w.kept| && Mergeable(w.kept[k], maxSharing) ==>
              w.kept[k].rmapHlistLen <= w.kept[f].rmapHlistLen)
        && (forall k :: 0 <= k < f && Mergeable(w.kept[k], maxSharing) ==>
              w.kept[k].rmapHlistLen < w.kept[f].rmapHlistLen)
    decreases |ds|
  {
    if |ds| > 0 {
      var d := ds[0];
      WalkDupsPruneBest(ds[1..], live, maxSharing);
      WalkDupsChoice(ds[1..], true, live, maxSharing);
      var w := WalkDups(ds, true, live, maxSharing);
      var w' := WalkDups(ds[1..], true, live, maxSharing);
      if d.kpfn in live && w.found.Some? {
        assert w.kept == [d] + w'.kept;
        var f := w.found.value;
        forall k | 0 <= k < |w.kept| && Mergeable(w.kept[k], maxSharing)
          ensures w.kept[k].rmapHlistLen <= w.kept[f].rmapHlistLen
        {
          if k > 0 { assert w.kept[k] == w'.kept[k - 1]; }
        }
        forall k | 0 <= k < f && Mergeable(w.kept[k], maxSharing)
          ensures w.kept[k].rmapHlistLen < w.kept[f].rmapHlistLen
        {
          if k > 0 { assert w.kept[k] == w'.kept[k - 1]; }
        }
      }
    }
  }

  /** Without pruning, the chosen dup is the first live candidate and the
      last dup the walk looked at. */
  lemma {:induction false} WalkDupsFirstFit(ds: seq<StableNode>, live: set<Kpfn>, maxSharing: int)
    ensures var w := WalkDups(ds, false, live, maxSharing);
      w.found.Some? ==>
        && w.found.value == w.nr - 1
        && forall k :: 0 <= k < w.found.value ==> !Mergeable(w.kept[k], maxSharing)
    decreases |ds|
  {
    if |ds| > 0 {
      var d := ds[0];
      if !(d.kpfn in live && Mergeable(d, maxSharing)) {
        WalkDupsFirstFit(ds[1..], live, maxSharing);
        var w := WalkDups(ds, false, live, maxSharing);
        var w' := WalkDups(ds[1..], false, live, maxSharing);
        if d.kpfn in live && w.found.Some? {
          assert w.kept == [d] + w'.kept;
          forall k | 0 <= k < w.found.value
            ensures !Mergeable(w.kept[k], maxSharing)
          {
            if k > 0 { assert w.kept[k] == w'.kept[k - 1]; }
          }
        }
      }
    }
  }

  /** The walk loses no mapping: what stays in the chain plus what was
      removed is what the chain held. */
  lemma {:induction false} WalkDupsSums(ds: seq<StableNode>, prune: bool, live: set<Kpfn>, maxSharing: int)
    ensures var w := WalkDups(ds, prune, live, maxSharing);
      && Sum(w.kept, NodeShared) + Sum(w.stale, NodeShared) == Sum(ds, NodeShared)
      && Sum(w.kept, NodeSharing) + Sum(w.stale, NodeSharing) == Sum(ds, NodeSharing)
      && (forall k :: 0 <= k < |w.kept| ==> w.kept[k] in ds)
    decreases |ds|
  {
    if |ds| > 0 {
      var d := ds[0];
      var w := WalkDups(ds, prune, live, maxSharing);
      if !(d.kpfn in live && Mergeable(d, maxSharing) && !prune) {
        WalkDupsSums(ds[1..], prune, live, maxSharing);
        var w' := WalkDups(ds[1..], prune, live, maxSharing);
        if d.kpfn in live {
          assert w.kept == [d] + w'.kept;
          assert ([d] + w'.kept)[1..] == w'.kept;
        } else {
          assert w.stale == [d] + w'.stale;
          assert ([d] + w'.stale)[1..] == w'.stale;
        }
        forall k | 0 <= k < |w.kept| ensures w.kept[k] in ds {
          if d.kpfn in live && k == 0 {
          } else {
            var k' := if d.kpfn in live then k - 1 else k;
            assert w.kept[k] == w'.kept[k'] && w'.kept[k'] in ds[1..];
          }
        }
      }
    }
  }

  // ---------------------------------------------------------------------
  // Visiting one tree position during a lookup (__stable_node_chain,
  // stable_node_dup, stable_node_dup_any and get_ksm_page)

  /** The counters once the stale dups `stale` are removed from their chain. */
  function DropStaleDups(c: Counters, stale: seq<StableNode>): Counters {
    c.(pagesShared := c.pagesShared - Sum(stale, NodeShared),
       pagesSharing := c.pagesSharing - Sum(stale, NodeSharing),
       nrBroken := c.nrBroken + Sum(stale, NodeSharing),
       slotNrBroken := c.slotNrBroken + Sum(stale, NodeSharing),
       dups := c.dups - |stale|)
  }

  /** The chain with its `f`th dup moved to the head (hlist_del + hlist_add_head). */
  function MoveToFront(ds: seq<StableNode>, f: nat): (ds': seq<StableNode>)
    requires f < |ds|
    ensures |ds'| == |ds| && ds'[0] == ds[f]
    ensures multiset(ds') == multiset(ds)
  {
    assert ds == ds[..f] + [ds[f]] + ds[f+1..];
    [ds[f]] + (ds[..f] + ds[f+1..])
  }

  lemma MoveToFrontSum(ds: seq<StableNode>, f: nat, g: StableNode -> int)
    requires f < |ds|
    ensures Sum(MoveToFront(ds, f), g) == Sum(ds, g)
  {
    var rest := ds[..f] + ds[f+1..];
    assert MoveToFront(ds, f) == [ds[f]] + rest;
    SumRemove(ds, f, g);
    SumConcat([ds[f]], rest, g);
    SumSingle(ds[f], g);
  }

  /** What the lookup does next: start over (the tree changed under the walk),
      compare against a node that cannot take the merge, or take the merge
      into the node `r`. */
  datatype VisitResult = Restart | Full | Found(r: Ref)

  datatype Visit = Visit(tree: Tree, counters: Counters, result: VisitResult)

  /** A live node at this position can take the merge. */
  predicate EntryHasCandidate(e: Entry, live: set<Kpfn>, maxSharing: int) {
    match e.kind
    case Regular(n) => n.kpfn in live && Mergeable(n, maxSharing)
    case Chain(ds) => exists j :: 0 <= j < |ds| && ds[j].kpfn in live && Mergeable(ds[j], maxSharing)
  }

  /** The lookup's visit of the tree position whose content matches. A regular
      node whose page is stale is removed and the lookup restarts. A chain has
      its dups walked; with pruning, a chain left with one live dup collapses
      into that dup, a chosen dup that can take one more merge moves to the
      head, and a chain with no dup left is freed and the lookup restarts. */
  function VisitEntry(t: Tree, c: Counters, i: nat, prune: bool, live: set<Kpfn>, maxSharing: int): (v: Visit)
    requires Wf(t) && i < |t|
    ensures v.result.Restart? ==> v.tree == t[..i] + t[i+1..]
    ensures !v.result.Restart? ==>
      && |v.tree| == |t|
      && v.tree[i].content == t[i].content
      && (forall k :: 0 <= k < |t| && k != i ==> v.tree[k] == t[k])
    ensures v.result.Found? ==>
      && v.result.r.i == i
      && NodeRef(v.tree, v.result.r)
      && NodeAt(v.tree, v.result.r).kpfn in live
      && Mergeable(NodeAt(v.tree, v.result.r), maxSharing)
    ensures !prune && !v.result.Restart? ==> v.tree[i].kind.Chain? == t[i].kind.Chain?
  {
    var e := t[i];
    assert KindWf(e.kind);
    match e.kind
    case Regular(n) =>
      if n.kpfn in live then
        Visit(t, c, if IsSharingCandidate(n, 0, maxSharing) then Found(Top(i)) else Full)
      else
        var d := RemoveNodeFromStableTree(t, c, Top(i));
        Visit(d.value.tree, d.value.counters, Restart)
    case Chain(ds) =>
      var w := WalkDups(ds, prune, live, maxSharing);
      WalkDupsChoice(ds, prune, live, maxSharing);
      var c1 := DropStaleDups(c, w.stale);
      match w.found
      case Some(f) =>
        if prune && w.nr == 1 then
          Visit(t[i := Entry(e.content, Regular(w.kept[f]))],
                c1.(chains := c1.chains - 1, dups := c1.dups - 1), Found(Top(i)))
        else if f != 0 && IsSharingCandidate(w.kept[f], 1, maxSharing) then
          Visit(t[i := Entry(e.content, Chain(MoveToFront(w.kept, f)))], c1, Found(InChain(i, 0)))
        else
          Visit(t[i := Entry(e.content, Chain(w.kept))], c1, Found(InChain(i, f)))
      case None =>
        if |w.kept| == 0 then
          Visit(t[..i] + t[i+1..], c1.(chains := c1.chains - 1), Restart)
        else
          // every dup left was just found live, so stable_node_dup_any's page is
          Visit(t[i := Entry(e.content, Chain(w.kept))], c1, Full)
  }

  /** Every dup of a well-formed chain that survives the walk is well formed. */
  lemma KeptWf(ds: seq<StableNode>, prune: bool, live: set<Kpfn>, maxSharing: int)
    requires DupsWf(ds)
    ensures DupsWf(WalkDups(ds, prune, live, maxSharing).kept)
  {
    WalkDupsSums(ds, prune, live, maxSharing);
  }

  /** With pruning, every dup was looked at, so the chain keeps exactly its
      live dups and `nr` is their number. */
  lemma PruneKeepsLive(ds: seq<StableNode>, live: set<Kpfn>, maxSharing: int)
    ensures var w := WalkDups(ds, true, live, maxSharing);
      w.kept == Live(ds, live) && w.nr == |w.kept| && w.stale == Stale(ds, live)
  {
    WalkDupsKept(ds, true, live, maxSharing);
    WalkDupsStale(ds, true, live, maxSharing);
    assert ds[..|ds|] == ds;
    assert ds[|ds|..] == [];
  }

  lemma SortedUpdate(t: Tree, i: nat, e: Entry)
    requires Sorted(t) && i < |t| && e.content == t[i].content
    ensures Sorted(t[i := e])
  {
  }

  /** A chain entry replaced by the outcome of its walk keeps the tree
      consistent with the counters: the walk's stale dups are the only
      mappings lost, and they are exactly what DropStaleDups subtracts. */
  lemma ReplaceChainConsistent(t: Tree, c: Counters, i: nat, w: DupWalk, k: Kind)
    requires Wf(t) && Consistent(t, c) && i < |t| && t[i].kind.Chain?
    requires |w.kept| + |w.stale| == |t[i].kind.dups|
    requires Sum(w.kept, NodeShared) + Sum(w.stale, NodeShared) == Sum(t[i].kind.dups, NodeShared)
    requires Sum(w.kept, NodeSharing) + Sum(w.stale, NodeSharing) == Sum(t[i].kind.dups, NodeSharing)
    requires KindWf(k)
    requires KindShared(k) == Sum(w.kept, NodeShared) && KindSharing(k) == Sum(w.kept, NodeSharing)
    ensures var c1 := DropStaleDups(c, w.stale);
      var t' := t[i := Entry(t[i].content, k)];
      && Wf(t')
      && Consistent(t', c1.(chains := c1.chains - 1 + KindChains(k), dups := c1.dups - |w.kept| + KindDups(k)))
  {
    var e' := Entry(t[i].content, k);
    SumUpdate(t, i, e', EntryShared);
    SumUpdate(t, i, e', EntrySharing);
    SumUpdate(t, i, e', EntryChains);
    SumUpdate(t, i, e', EntryDups);
    SortedUpdate(t, i, e');
  }

  lemma VisitEntryKeepsConsistent(t: Tree, c: Counters, i: nat, prune: bool, live: set<Kpfn>, maxSharing: int)
    requires Wf(t) && Consistent(t, c) && i < |t|
    ensures var v := VisitEntry(t, c, i, prune, live, maxSharing);
      Wf(v.tree) && Consistent(v.tree, v.counters)
  {
    match t[i].kind
    case Regular(n) =>
      if n.kpfn !in live {
        RemoveNodeKeepsConsistent(t, c, Top(i));
      }
    case Chain(ds) =>
      if WalkDups(ds, prune, live, maxSharing).found.Some? {
        VisitChainFoundConsistent(t, c, i, prune, live, maxSharing);
      } else {
        VisitChainEmptiedConsistent(t, c, i, prune, live, maxSharing);
      }
  }

  /** The chain case of the visit when the walk chose a dup. */
  lemma VisitChainFoundConsistent(t: Tree, c: Counters, i: nat, prune: bool, live: set<Kpfn>, maxSharing: int)
    requires Wf(t) && Consistent(t, c) && i < |t| && t[i].kind.Chain?
    requires WalkDups(t[i].kind.dups, prune, live, maxSharing).found.Some?
    ensures var v := VisitEntry(t, c, i, prune, live, maxSharing);
      Wf(v.tree) && Consistent(v.tree, v.counters)
  {
    var ds := t[i].kind.dups;
    var w := WalkDups(ds, prune, live, maxSharing);
    var f := w.found.value;
    WalkDupsSums(ds, prune, live, maxSharing);
    assert DupsWf(ds);
    KeptWf(ds, prune, live, maxSharing);
    if prune && w.nr == 1 {
      CollapseConsistent(t, c, i, w, live, maxSharing);
    } else if f != 0 && IsSharingCandidate(w.kept[f], 1, maxSharing) {
      MoveToFrontConsistent(t, c, i, w);
    } else {
      ReplaceChainConsistent(t, c, i, w, Chain(w.kept));
    }
  }

  /** A pruned chain with one live dup left becomes that dup. */
  lemma CollapseConsistent(t: Tree, c: Counters, i: nat, w: DupWalk, live: set<Kpfn>, maxSharing: int)
    requires Wf(t) && Consistent(t, c) && i < |t| && t[i].kind.Chain?
    requires w == WalkDups(t[i].kind.dups, true, live, maxSharing)
    requires w.found.Some? && w.nr == 1 && DupsWf(w.kept)
    requires Sum(w.kept, NodeShared) + Sum(w.stale, NodeShared) == Sum(t[i].kind.dups, NodeShared)
    requires Sum(w.kept, NodeSharing) + Sum(w.stale, NodeSharing) == Sum(t[i].kind.dups, NodeSharing)
    ensures var c1 := DropStaleDups(c, w.stale);
      var t' := t[i := Entry(t[i].content, Regular(w.kept[w.found.value]))];
      && Wf(t')
      && Consistent(t', c1.(chains := c1.chains - 1, dups := c1.dups - 1))
  {
    PruneKeepsLive(t[i].kind.dups, live, maxSharing);
    assert w.kept == [w.kept[0]];
    SumSingle(w.kept[0], NodeShared);
    SumSingle(w.kept[0], NodeSharing);
    ReplaceChainConsistent(t, c, i, w, Regular(w.kept[w.found.value]));
  }

  /** A chain whose chosen dup moves to its head keeps its totals. */
  lemma MoveToFrontConsistent(t: Tree, c: Counters, i: nat, w: DupWalk)
    requires Wf(t) && Consistent(t, c) && i < |t| && t[i].kind.Chain?
    requires w.found.Some? && w.found.value < |w.kept| && DupsWf(w.kept)
    requires |w.kept| + |w.stale| == |t[i].kind.dups|
    requires Sum(w.kept, NodeShared) + Sum(w.stale, NodeShared) == Sum(t[i].kind.dups, NodeShared)
    requires Sum(w.kept, NodeSharing) + Sum(w.stale, NodeSharing) == Sum(t[i].kind.dups, NodeSharing)
    ensures var c1 := DropStaleDups(c, w.stale);
      var t' := t[i := Entry(t[i].content, Chain(MoveToFront(w.kept, w.found.value)))];
      && Wf(t')
      && Consistent(t', c1)
  {
    var f := w.found.value;
    var ds' := MoveToFront(w.kept, f);
    MoveToFrontSum(w.kept, f, NodeShared);
    MoveToFrontSum(w.kept, f, NodeSharing);
    forall j | 0 <= j < |ds'| ensures NodeWf(ds'[j]) {
      assert ds'[j] in multiset(ds');
      assert ds'[j] in w.kept;
    }
    ReplaceChainConsistent(t, c, i, w, Chain(ds'));
  }

  /** The chain case of the visit when the walk chose no dup: the chain is
      freed once no dup is left, and kept as it is otherwise. */
  lemma VisitChainEmptiedConsistent(t: Tree, c: Counters, i: nat, prune: bool, live: set<Kpfn>, maxSharing: int)
    requires Wf(t) && Consistent(t, c) && i < |t| && t[i].kind.Chain?
    requires WalkDups(t[i].kind.dups, prune, live, maxSharing).found.None?
    ensures var v := VisitEntry(t, c, i, prune, live, maxSharing);
      Wf(v.tree) && Consistent(v.tree, v.counters)
  {
    var ds := t[i].kind.dups;
    var w := WalkDups(ds, prune, live, maxSharing);
    WalkDupsSums(ds, prune, live, maxSharing);
    assert DupsWf(ds);
    KeptWf(ds, prune, live, maxSharing);
    if |w.kept| == 0 {
      var v := VisitEntry(t, c, i, prune, live, maxSharing);
      assert v.tree == t[..i] + t[i+1..];
      SumRemove(t, i, EntryShared);
      SumRemove(t, i, EntrySharing);
      SumRemove(t, i, EntryChains);
      SumRemove(t, i, EntryDups);
      RemoveEntryWf(t, i);
    } else {
      ReplaceChainConsistent(t, c, i, w, Chain(w.kept));
    }
  }

  lemma {:induction false} LiveContains(ds: seq<StableNode>, live: set<Kpfn>, j: nat)
    requires j < |ds| && ds[j].kpfn in live
    ensures ds[j] in Live(ds, live)
    decreases |ds|
  {
    if j > 0 {
      LiveContains(ds[1..], live, j - 1);
      assert ds[1..][j - 1] == ds[j];
    }
  }

  /** The visit ends in a merge target exactly when the position holds a live
      node that can take the merge: the walk never misses one. */
  lemma VisitEntryFindsCandidate(t: Tree, c: Counters, i: nat, prune: bool, live: set<Kpfn>, maxSharing: int)
    requires Wf(t) && i < |t|
    ensures VisitEntry(t, c, i, prune, live, maxSharing).result.Found? <==> EntryHasCandidate(t[i], live, maxSharing)
  {
    match t[i].kind
    case Regular(n) =>
      assert NodeWf(n);
    case Chain(ds) =>
      var w := WalkDups(ds, prune, live, maxSharing);
      WalkDupsChoice(ds, prune, live, maxSharing);
      WalkDupsSums(ds, prune, live, maxSharing);
      if w.found.Some? {
        var f := w.found.value;
        assert w.kept[f] in ds;
        var j :| 0 <= j < |ds| && ds[j] == w.kept[f];
        assert ds[j].kpfn in live && Mergeable(ds[j], maxSharing);
      } else {
        WalkDupsKept(ds, prune, live, maxSharing);
        assert ds[..|ds|] == ds && ds[|ds|..] == [];
        assert w.kept == Live(ds, live);
        forall j | 0 <= j < |ds| && ds[j].kpfn in live
          ensures !Mergeable(ds[j], maxSharing)
        {
          LiveContains(ds, live, j);
        }
      }
  }

  /** With pruning due, the dup chosen from a chain is one of the fullest live
      dups that can still take the merge. */
  lemma VisitEntryPrunePicksFullest(t: Tree, c: Counters, i: nat, live: set<Kpfn>, maxSharing: int)
    requires Wf(t) && i < |t| && t[i].kind.Chain?
    ensures var v := VisitEntry(t, c, i, true, live, maxSharing);
      var ds := t[i].kind.dups;
      v.result.Found? ==>
        forall j :: 0 <= j < |ds| && ds[j].kpfn in live && Mergeable(ds[j], maxSharing) ==>
          ds[j].rmapHlistLen <= NodeAt(v.tree, v.result.r).rmapHlistLen
  {
    var v := VisitEntry(t, c, i, true, live, maxSharing);
    var ds := t[i].kind.dups;
    var w := WalkDups(ds, true, live, maxSharing);
    if v.result.Found? {
      var f := w.found.value;
      PruneKeepsLive(ds, live, maxSharing);
      WalkDupsPruneBest(ds, live, maxSharing);
      assert NodeAt(v.tree, v.result.r) == w.kept[f];
      forall j | 0 <= j < |ds| && ds[j].kpfn in live && Mergeable(ds[j], maxSharing)
        ensures ds[j].rmapHlistLen <= w.kept[f].rmapHlistLen
      {
        LiveContains(ds, live, j);
        var m :| 0 <= m < |w.kept| && w.kept[m] == ds[j];
      }
    }
  }

  /** A chain collapses back into a regular node exactly when pruning is due
      and a single live dup, able to take the merge, is left. */
  lemma VisitEntryCollapse(t: Tree, c: Counters, i: nat, prune: bool, live: set<Kpfn>, maxSharing: int)
    requires Wf(t) && i < |t| && t[i].kind.Chain?
    ensures var v := VisitEntry(t, c, i, prune, live, maxSharing);
      var l := Live(t[i].kind.dups, live);
      !v.result.Restart? ==>
        (v.tree[i].kind.Regular? <==> prune && |l| == 1 && Mergeable(l[0], maxSharing))
  {
    var ds := t[i].kind.dups;
    var w := WalkDups(ds, prune, live, maxSharing);
    WalkDupsChoice(ds, prune, live, maxSharing);
    if prune {
      PruneKeepsLive(ds, live, maxSharing);
      if |w.kept| == 1 && Mergeable(w.kept[0], maxSharing) {
        assert w.found.Some?;
      }
    }
  }

  lemma ReplaceKindWf(t: Tree, i: nat, k: Kind)
    requires Wf(t) && i < |t| && KindWf(k)
    ensures Wf(t[i := Entry(t[i].content, k)])
  {
    SortedUpdate(t, i, Entry(t[i].content, k));
  }

  lemma RemoveEntryWf(t: Tree, i: nat)
    requires Wf(t) && i < |t|
    ensures Wf(t[..i] + t[i+1..])
  {
    SortedRemove(t, i);
    var t' := t[..i] + t[i+1..];
    forall k | 0 <= k < |t'|
      ensures KindWf(t'[k].kind)
    {
      assert t'[k] == (if k < i then t[k] else t[k + 1]);
    }
  }

  /** The visit keeps the tree ordered and its nodes well formed. */
  lemma VisitEntryKeepsWf(t: Tree, c: Counters, i: nat, prune: bool, live: set<Kpfn>, maxSharing: int)
    requires Wf(t) && i < |t|
    ensures Wf(VisitEntry(t, c, i, prune, live, maxSharing).tree)
  {
    var v := VisitEntry(t, c, i, prune, live, maxSharing);
    match t[i].kind
    case Regular(n) =>
      if n.kpfn !in live {
        RemoveEntryWf(t, i);
      }
    case Chain(ds) =>
      var w := WalkDups(ds, prune, live, maxSharing);
      assert DupsWf(ds);
      KeptWf(ds, prune, live, maxSharing);
      WalkDupsChoice(ds, prune, live, maxSharing);
      match w.found
      case Some(f) =>
        if prune && w.nr == 1 {
          ReplaceKindWf(t, i, Regular(w.kept[f]));
        } else if f != 0 && IsSharingCandidate(w.kept[f], 1, maxSharing) {
          var ds' := MoveToFront(w.kept, f);
          forall j | 0 <= j < |ds'| ensures NodeWf(ds'[j]) {
            assert ds'[j] in multiset(ds');
            assert ds'[j] in w.kept;
          }
          ReplaceKindWf(t, i, Chain(ds'));
        } else {
          ReplaceKindWf(t, i, Chain(w.kept));
        }
      case None =>
        if |w.kept| == 0 {
          RemoveEntryWf(t, i);
        } else {
          ReplaceKindWf(t, i, Chain(w.kept));
        }
  }

  // ---------------------------------------------------------------------
  // stable_tree_search and stable_tree_insert

  function FindContent(t: Tree, x: Content): (r: Option<nat>)
    ensures r.Some? ==> r.value < |t| && t[r.value].content == x
    ensures r.None? ==> forall k :: 0 <= k < |t| ==> t[k].content != x
    decreases |t|
  {
    if |t| == 0 then None
    else if t[0].content == x then Some(0)
    else match FindContent(t[1..], x)
      case None => None
      case Some(k) => Some(k + 1)
  }

  /** Where content `x` is linked into the tree: after every smaller one. */
  function InsertPos(t: Tree, x: Content): (p: nat)
    requires Sorted(t)
    ensures p <= |t|
    ensures forall k :: 0 <= k < p ==> t[k].content < x
    ensures forall k :: p <= k < |t| ==> t[k].content >= x
    decreases |t|
  {
    if |t| == 0 || t[0].content >= x then 0
    else 1 + InsertPos(t[1..], x)
  }

  /** The entries of `t` with `e` linked in at position `p`. */
  lemma InsertAtIndex(t: Tree, p: nat, e: Entry, k: nat)
    requires p <= |t| && k <= |t|
    ensures var t' := t[..p] + [e] + t[p..];
      |t'| == |t| + 1 && t'[k] == (if k < p then t[k] else if k == p then e else t[k - 1])
  {
  }

  lemma InsertKeepsSorted(t: Tree, e: Entry)
    requires Sorted(t) && FindContent(t, e.content).None?
    ensures var p := InsertPos(t, e.content); Sorted(t[..p] + [e] + t[p..])
  {
    var p := InsertPos(t, e.content);
    var t' := t[..p] + [e] + t[p..];
    forall a, b | 0 <= a < b < |t'|
      ensures t'[a].content < t'[b].content
    {
      InsertAtIndex(t, p, e, a);
      InsertAtIndex(t, p, e, b);
    }
  }

  /** Some position with content `x` holds a live node that can take a merge. */
  predicate ContentHasCandidate(t: Tree, x: Content, live: set<Kpfn>, maxSharing: int) {
    exists k :: 0 <= k < |t| && t[k].content == x && EntryHasCandidate(t[k], live, maxSharing)
  }

  lemma SortedUnique(t: Tree, i: nat, k: nat)
    requires Sorted(t) && i < |t| && k < |t| && t[i].content == t[k].content
    ensures i == k
  {
  }

  datatype SearchResult = Miss | Busy | Hit(r: Ref)

  datatype Searched = Searched(tree: Tree, counters: Counters, result: SearchResult)

  /** The lookup of stable_tree_search for a page that is not yet a KSM page, with content
      `x`. The lookup restarts whenever a stale node was dropped from under
      it. `pruneDue` says whether the chain's prune interval has elapsed, and
      `trylockOk` whether the KSM page lock was free (else -EBUSY). */
  function StableTreeSearch(t: Tree, c: Counters, x: Content, pruneDue: bool, trylockOk: bool,
                            live: set<Kpfn>, maxSharing: int): (s: Searched)
    requires Wf(t)
    ensures Wf(s.tree)
    ensures s.result.Hit? ==>
      && NodeRef(s.tree, s.result.r)
      && s.tree[s.result.r.i].content == x
      && NodeAt(s.tree, s.result.r).kpfn in live
      && Mergeable(NodeAt(s.tree, s.result.r), maxSharing)
    ensures s.result.Miss? <==> !ContentHasCandidate(t, x, live, maxSharing)
    ensures s.result.Busy? ==> !trylockOk
    ensures trylockOk ==> !s.result.Busy?
    decreases |t|
  {
    match FindContent(t, x)
    case None => Searched(t, c, Miss)
    case Some(i) =>
      var v := VisitEntry(t, c, i, pruneDue, live, maxSharing);
      VisitEntryKeepsWf(t, c, i, pruneDue, live, maxSharing);
      VisitEntryFindsCandidate(t, c, i, pruneDue, live, maxSharing);
      forall k | 0 <= k < |t| && t[k].content == x ensures k == i {
        SortedUnique(t, i, k);
      }
      match v.result
      case Restart =>
        assert FindContent(v.tree, x).None? by {
          forall k | 0 <= k < |v.tree| ensures v.tree[k].content != x {
            assert v.tree[k] == (if k < i then t[k] else t[k + 1]);
          }
        }
        StableTreeSearch(v.tree, v.counters, x, pruneDue, trylockOk, live, maxSharing)
      case Full => Searched(v.tree, v.counters, Miss)
      case Found(r) =>
        if trylockOk then Searched(v.tree, v.counters, Hit(r))
        else Searched(v.tree, v.counters, Busy)
  }

  /** What stable_tree_search hands back to cmp_and_merge_page: the scanned
      page itself when it is already a KSM page, or the lookup's outcome. */
  datatype PageSearch = ForkedPage(kpfn: Kpfn) | Looked(searched: Searched)

  /** stable_tree_search of a page with content `x` whose own stable node
      (page_stable_node) is `pageNode`. A page that is already a KSM page
      ("ksm page forked") is returned as it is, without visiting the tree,
      however many pages share its node; any other page is looked up. */
  function StableTreeSearchPage(t: Tree, c: Counters, x: Content, pageNode: Option<Kpfn>, pruneDue: bool,
                                trylockOk: bool, live: set<Kpfn>, maxSharing: int): (p: PageSearch)
    requires Wf(t)
    ensures p.ForkedPage? <==> pageNode.Some?
    ensures p.ForkedPage? ==> p.kpfn == pageNode.value
    ensures p.Looked? ==> Wf(p.searched.tree)
    ensures p.Looked? ==> (p.searched.result.Miss? <==> !ContentHasCandidate(t, x, live, maxSharing))
    ensures p.Looked? && p.searched.result.Hit? ==>
      var r := p.searched.result.r;
      && NodeRef(p.searched.tree, r)
      && p.searched.tree[r.i].content == x
      && NodeAt(p.searched.tree, r).kpfn in live
      && Mergeable(NodeAt(p.searched.tree, r), maxSharing)
  {
    match pageNode
    case Some(k) => ForkedPage(k)
    case None => Looked(StableTreeSearch(t, c, x, pruneDue, trylockOk, live, maxSharing))
  }

  /** A KSM page whose node already holds ksm_max_page_sharing mappings:
      looking its content up misses, yet the page itself comes back, so the
      merge goes ahead (with the sharing bypass) instead of failing. */
  lemma ForkedFullNodeHits(c: Counters, x: Content, k: Kpfn)
    ensures var t := [Entry(x, Regular(StableNode(k, [1, 2], 2)))];
      && Wf(t)
      && StableTreeSearch(t, c, x, false, true, {k}, 2).result == Miss
      && StableTreeSearchPage(t, c, x, Some(k), false, true, {k}, 2) == ForkedPage(k)
  {
    var t := [Entry(x, Regular(StableNode(k, [1, 2], 2)))];
    assert !EntryHasCandidate(t[0], {k}, 2);
    assert !ContentHasCandidate(t, x, {k}, 2);
  }

  lemma {:induction false} SearchKeepsConsistent(t: Tree, c: Counters, x: Content, pruneDue: bool, trylockOk: bool,
                                                 live: set<Kpfn>, maxSharing: int)
    requires Wf(t) && Consistent(t, c)
    ensures var s := StableTreeSearch(t, c, x, pruneDue, trylockOk, live, maxSharing);
      Consistent(s.tree, s.counters)
    decreases |t|
  {
    var f := FindContent(t, x);
    if f.Some? {
      var v := VisitEntry(t, c, f.value, pruneDue, live, maxSharing);
      VisitEntryKeepsConsistent(t, c, f.value, pruneDue, live, maxSharing);
      if v.result.Restart? {
        SearchKeepsConsistent(v.tree, v.counters, x, pruneDue, trylockOk, live, maxSharing);
      }
    }
  }

  datatype Inserted = Inserted(tree: Tree, counters: Counters, node: Option<Ref>)

  /** The new stable node for KSM page `kpfn`: no mappings yet. */
  function FreshNode(kpfn: Kpfn): StableNode {
    StableNode(kpfn, [], 0)
  }

  /** stable_tree_insert of a new KSM page `kpfn` with content `x`. Content
      not yet in the tree gets a regular node of its own; content already
      there makes the new node a dup at the head of that position's chain,
      turning a regular node into a chain first. `allocNodeOk` and
      `allocChainOk` are the outcomes of the two allocations; on failure
      nothing is inserted. */
  function StableTreeInsert(t: Tree, c: Counters, x: Content, kpfn: Kpfn, live: set<Kpfn>, maxSharing: int,
                            allocNodeOk: bool, allocChainOk: bool): (res: Inserted)
    requires Wf(t)
    ensures Wf(res.tree)
    ensures res.node.Some? ==>
      && NodeRef(res.tree, res.node.value)
      && NodeAt(res.tree, res.node.value) == FreshNode(kpfn)
      && res.tree[res.node.value.i].content == x
    ensures res.node.None? ==> !allocNodeOk || !allocChainOk
    ensures allocNodeOk && allocChainOk ==> res.node.Some?
    ensures FindContent(t, x).None? ==>
      && (res.node.Some? <==> allocNodeOk)
      && res.counters == c
      && |res.tree| == |t| + (if allocNodeOk then 1 else 0)
    decreases |t|
  {
    match FindContent(t, x)
    case None =>
      if !allocNodeOk then Inserted(t, c, None)
      else InsertNew(t, c, x, kpfn)
    case Some(i) =>
      var v := VisitEntry(t, c, i, false, live, maxSharing);
      VisitEntryKeepsWf(t, c, i, false, live, maxSharing);
      if v.result.Restart? then
        StableTreeInsert(v.tree, v.counters, x, kpfn, live, maxSharing, allocNodeOk, allocChainOk)
      else if !allocNodeOk then Inserted(v.tree, v.counters, None)
      else AddDup(v.tree, v.counters, i, kpfn, allocChainOk)
  }

  /** A regular node of its own for content not yet in the tree, linked in
      after every smaller content. */
  function InsertNew(t: Tree, c: Counters, x: Content, kpfn: Kpfn): (res: Inserted)
    requires Wf(t) && FindContent(t, x).None?
    ensures Wf(res.tree) && res.counters == c && |res.tree| == |t| + 1
    ensures res.node.Some? && NodeRef(res.tree, res.node.value)
    ensures NodeAt(res.tree, res.node.value) == FreshNode(kpfn)
    ensures res.tree[res.node.value.i].content == x
  {
    var p := InsertPos(t, x);
    var e := Entry(x, Regular(FreshNode(kpfn)));
    InsertKeepsSorted(t, e);
    var t' := t[..p] + [e] + t[p..];
    InsertAtIndex(t, p, e, p);
    assert Wf(t') by {
      forall k | 0 <= k < |t'| ensures KindWf(t'[k].kind) {
        InsertAtIndex(t, p, e, k);
      }
    }
    Inserted(t', c, Some(Top(p)))
  }

  /** The new node becomes a dup at the head of position `i`'s chain; a
      regular node there is first turned into a chain (which needs the
      chain allocation). */
  function AddDup(t: Tree, c: Counters, i: nat, kpfn: Kpfn, allocChainOk: bool): (res: Inserted)
    requires Wf(t) && i < |t|
    ensures Wf(res.tree) && |res.tree| == |t|
    ensures res.node.None? <==> t[i].kind.Regular? && !allocChainOk
    ensures res.node.Some? ==>
      && res.node.value == InChain(i, 0)
      && NodeRef(res.tree, res.node.value)
      && NodeAt(res.tree, res.node.value) == FreshNode(kpfn)
      && res.tree[i].content == t[i].content
      && res.tree[i].kind == Chain([FreshNode(kpfn)] + Nodes(t[i].kind))
      && res.tree == t[i := res.tree[i]]
    ensures res.node.Some? ==>
      res.counters == c.(chains := c.chains + (if t[i].kind.Regular? then 1 else 0),
                         dups := c.dups + (if t[i].kind.Regular? then 2 else 1))
  {
    var x := t[i].content;
    match t[i].kind
    case Regular(n) =>
      if !allocChainOk then Inserted(t, c, None)
      else
        assert [FreshNode(kpfn), n] == [FreshNode(kpfn)] + Nodes(t[i].kind);
        ReplaceKindWf(t, i, Chain([FreshNode(kpfn), n]));
        Inserted(t[i := Entry(x, Chain([FreshNode(kpfn), n]))],
                 c.(chains := c.chains + 1, dups := c.dups + 2),
                 Some(InChain(i, 0)))
    case Chain(ds) =>
      ReplaceKindWf(t, i, Chain([FreshNode(kpfn)] + ds));
      Inserted(t[i := Entry(x, Chain([FreshNode(kpfn)] + ds))],
               c.(dups := c.dups + 1),
               Some(InChain(i, 0)))
  }

  /** Insertion keeps the counters in agreement with the tree: a new node has
      no mapping yet, and a chain created or grown is counted. */
  lemma {:induction false} InsertKeepsConsistent(t: Tree, c: Counters, x: Content, kpfn: Kpfn, live: set<Kpfn>,
                                                 maxSharing: int, allocNodeOk: bool, allocChainOk: bool)
    requires Wf(t) && Consistent(t, c)
    ensures var res := StableTreeInsert(t, c, x, kpfn, live, maxSharing, allocNodeOk, allocChainOk);
      Consistent(res.tree, res.counters)
    decreases |t|
  {
    var res := StableTreeInsert(t, c, x, kpfn, live, maxSharing, allocNodeOk, allocChainOk);
    match FindContent(t, x)
    case None =>
      if allocNodeOk {
        InsertNewConsistent(t, c, x, kpfn);
      }
    case Some(i) =>
      var v := VisitEntry(t, c, i, false, live, maxSharing);
      VisitEntryKeepsWf(t, c, i, false, live, maxSharing);
      VisitEntryKeepsConsistent(t, c, i, false, live, maxSharing);
      if v.result.Restart? {
        InsertKeepsConsistent(v.tree, v.counters, x, kpfn, live, maxSharing, allocNodeOk, allocChainOk);
      } else if allocNodeOk {
        AddDupConsistent(v.tree, v.counters, i, kpfn, allocChainOk);
      }
  }

  lemma InsertNewConsistent(t: Tree, c: Counters, x: Content, kpfn: Kpfn)
    requires Wf(t) && Consistent(t, c) && FindContent(t, x).None?
    ensures var res := InsertNew(t, c, x, kpfn); Consistent(res.tree, res.counters)
  {
    var p := InsertPos(t, x);
    var e := Entry(x, Regular(FreshNode(kpfn)));
    SumInsert(t, p, e, EntryShared);
    SumInsert(t, p, e, EntrySharing);
    SumInsert(t, p, e, EntryChains);
    SumInsert(t, p, e, EntryDups);
  }

  lemma AddDupConsistent(t: Tree, c: Counters, i: nat, kpfn: Kpfn, allocChainOk: bool)
    requires Wf(t) && Consistent(t, c) && i < |t|
    ensures var res := AddDup(t, c, i, kpfn, allocChainOk); Consistent(res.tree, res.counters)
  {
    var res := AddDup(t, c, i, kpfn, allocChainOk);
    if res.node.Some? {
      var e' := res.tree[i];
      SumUpdate(t, i, e', EntryShared);
      SumUpdate(t, i, e', EntrySharing);
      SumUpdate(t, i, e', EntryChains);
      SumUpdate(t, i, e', EntryDups);
      SumConcat([FreshNode(kpfn)], Nodes(t[i].kind), NodeShared);
      SumConcat([FreshNode(kpfn)], Nodes(t[i].kind), NodeSharing);
    }
  }

  /** Two pages merged into a new KSM page: the node is inserted, then both
      rmap_items are appended. The page counts one shared page and one page
      sharing it, and with a sharing cap of at least two no overflow warning
      fires. */
  lemma PairMergeAccounting(t: Tree, c: Counters, x: Content, kpfn: Kpfn, live: set<Kpfn>, maxSharing: int,
                            first: RmapItem, second: RmapItem)
    requires Wf(t) && maxSharing >= 2
    ensures var ins := StableTreeInsert(t, c, x, kpfn, live, maxSharing, true, true);
      && ins.node.Some?
      && var r := ins.node.value;
      && var a1 := StableTreeAppend(ins.tree, ins.counters, r, first, false, maxSharing);
      && a1.Done?
      && var a2 := StableTreeAppend(a1.value.tree, a1.value.counters, r, second, false, maxSharing);
      && a2.Done?
      && a2.value.counters.pagesShared == ins.counters.pagesShared + 1
      && a2.value.counters.pagesSharing == ins.counters.pagesSharing + 1
      && !a1.value.overflowWarning && !a2.value.overflowWarning
      && NodeAt(a2.value.tree, r).hlist == [second.id, first.id]
      && NodeAt(a2.value.tree, r).kpfn == kpfn
  {
  }

  // ---------------------------------------------------------------------
  // Following an rmap_item's head to its node

  function FindDup(ds: seq<StableNode>, kpfn: Kpfn): (j: Option<nat>)
    ensures j.Some? ==> j.value < |ds| && ds[j.value].kpfn == kpfn
    ensures j.None? ==> forall k :: 0 <= k < |ds| ==> ds[k].kpfn != kpfn
    decreases |ds|
  {
    if |ds| == 0 then None
    else if ds[0].kpfn == kpfn then Some(0)
    else match FindDup(ds[1..], kpfn)
      case None => None
      case Some(k) => Some(k + 1)
  }

  /** The regular node or dup whose KSM page is `kpfn` (rmap_item->head). */
  function FindNode(t: Tree, kpfn: Kpfn): (r: Option<Ref>)
    ensures r.Some? ==> NodeRef(t, r.value) && NodeAt(t, r.value).kpfn == kpfn
    ensures r.None? ==> forall k :: 0 <= k < |t| ==>
      match t[k].kind
      case Regular(n) => n.kpfn != kpfn
      case Chain(ds) => forall j :: 0 <= j < |ds| ==> ds[j].kpfn != kpfn
    decreases |t|
  {
    if |t| == 0 then None
    else
      var here: Option<Ref> :=
        match t[0].kind
        case Regular(n) => if n.kpfn == kpfn then Some(Top(0)) else None
        case Chain(ds) =>
          match FindDup(ds, kpfn)
          case Some(j) => Some(InChain(0, j))
          case None => None;
      if here.Some? then here
      else match FindNode(t[1..], kpfn)
        case None => None
        case Some(Top(i)) => Some(Top(i + 1))
        case Some(InChain(i, j)) => Some(InChain(i + 1, j))
  }
}
