/**
 Shared definitions of the LKSM model: constants of mm/lksm.c, the packing of
 flags into the low bits of an rmap_item address, the reverse-mapping item
 record, the global statistics counters and a generic sum over sequences.
 */
module KsmDefs {

  /** The conventional Some/None datatype. */
  datatype Option<+T> = None | Some(value: T)

  /** Page contents are abstracted to a totally ordered value; memcmp_pages is
      the comparison of two such values. */
  type Content = int

  /** A page frame number; it identifies a stable node (the node's KSM page). */
  type Kpfn = nat

  /** Identity of an rmap_item. */
  type ItemId = nat

  /** A user virtual address, or an unsigned long counter, as a natural number.
      The bit fields packed into an rmap_item address are disjoint, so the
      masks of mm/lksm.c are written with `%` and `/` by their powers of two:
      `a & PAGE_MASK` is `a - a % PAGE_SIZE`, `a & SEQNR_MASK` is `a % 0x100`,
      and setting a clear flag bit adds it. */
  type Addr = nat

  const PAGE_SIZE: nat := 0x1000
  /** Low bits of the unstable tree scan_round kept in an rmap_item address. */
  const SEQNR_MASK: nat := 0x0ff
  /** The rmap_item is a node of the unstable tree. */
  const UNSTABLE_FLAG: nat := 0x100
  /** The rmap_item is listed from the stable tree. */
  const STABLE_FLAG: nat := 0x200

  /** rmap_hlist_len of a stable node chain. */
  const STABLE_NODE_CHAIN: int := -1024

  /** Page-aligned part of an rmap_item address (`address & PAGE_MASK`). */
  function PageOf(address: Addr): Addr {
    address - address % PAGE_SIZE
  }

  predicate PageAligned(address: Addr) {
    address % PAGE_SIZE == 0
  }

  /** Bit `flag` (a power of two) of `address`. */
  predicate HasBit(address: Addr, flag: nat)
    requires flag > 0
  {
    (address / flag) % 2 == 1
  }

  predicate HasStableFlag(address: Addr) {
    HasBit(address, STABLE_FLAG)
  }

  predicate HasUnstableFlag(address: Addr) {
    HasBit(address, UNSTABLE_FLAG)
  }

  /** The round byte stored in an rmap_item address (`address & SEQNR_MASK`). */
  function RoundTag(address: Addr): nat {
    address % (SEQNR_MASK + 1)
  }

  /** Clearing every flag: `address &= PAGE_MASK`. */
  function ClearFlags(address: Addr): (r: Addr)
    ensures PageAligned(r) && PageOf(r) == PageOf(address)
    ensures !HasStableFlag(r) && !HasUnstableFlag(r) && RoundTag(r) == 0
  {
    var q := address / PAGE_SIZE;
    assert PageOf(address) == PAGE_SIZE * q;
    assert (PAGE_SIZE * q) / STABLE_FLAG == 2 * (4 * q);
    assert (PAGE_SIZE * q) / UNSTABLE_FLAG == 2 * (8 * q);
    PageOf(address)
  }

  /** `address |= STABLE_FLAG`. */
  function SetStableFlag(address: Addr): (r: Addr)
    ensures PageOf(r) == PageOf(address)
    ensures HasStableFlag(r)
    ensures HasUnstableFlag(r) == HasUnstableFlag(address)
    ensures RoundTag(r) == RoundTag(address)
  {
    if HasStableFlag(address) then address
    else
      SetStableBit(address);
      address + STABLE_FLAG
  }

  /** Tagging an rmap_item inserted in the unstable tree:
      `address |= UNSTABLE_FLAG; address |= scan_round & SEQNR_MASK`. */
  function TagUnstable(address: Addr, scanRound: nat): (r: Addr)
    requires PageAligned(address)
    ensures PageOf(r) == address
    ensures HasUnstableFlag(r) && !HasStableFlag(r)
    ensures RoundTag(r) == scanRound % (SEQNR_MASK + 1)
  {
    var low := scanRound % (SEQNR_MASK + 1);
    TagBits(address, low);
    address + UNSTABLE_FLAG + low
  }

  /** Quotient and remainder are the only ones of their kind. */
  lemma DivModUnique(n: int, d: int, q: int, m: int)
    requires d > 0 && 0 <= m < d && n == d * q + m
    ensures n / d == q && n % d == m
  {
    var q', m' := n / d, n % d;
    assert d * (q - q') == m' - m;
    assert q - q' >= 1 ==> d * (q - q') >= d;
    assert q' - q >= 1 ==> d * (q' - q) >= d;
  }

  /** Setting the clear STABLE_FLAG leaves the page, the unstable flag and
      the round byte alone. */
  lemma SetStableBit(a: Addr)
    requires !HasStableFlag(a)
    ensures PageOf(a + STABLE_FLAG) == PageOf(a)
    ensures HasStableFlag(a + STABLE_FLAG)
    ensures RoundTag(a + STABLE_FLAG) == RoundTag(a)
    ensures HasUnstableFlag(a + STABLE_FLAG) == HasUnstableFlag(a)
  {
    // a = PAGE_SIZE * p + STABLE_FLAG * k + UNSTABLE_FLAG * u + r
    var p, lo := a / PAGE_SIZE, a % PAGE_SIZE;
    var k, m := lo / STABLE_FLAG, lo % STABLE_FLAG;
    var u, r := m / UNSTABLE_FLAG, m % UNSTABLE_FLAG;
    DivModUnique(a, STABLE_FLAG, 8 * p + k, m);
    DivModUnique(8 * p + k, 2, 4 * p + k / 2, k % 2);
    DivModUnique(a, UNSTABLE_FLAG, 16 * p + 2 * k + u, r);
    DivModUnique(16 * p + 2 * k + u, 2, 8 * p + k, u);
    // bit 9 of the offset in the page is clear, so adding it stays in the page
    assert k % 2 == 0 && k < 7;
    var b := a + STABLE_FLAG;
    DivModUnique(b, PAGE_SIZE, p, lo + STABLE_FLAG);
    DivModUnique(b, STABLE_FLAG, 8 * p + k + 1, m);
    DivModUnique(8 * p + k + 1, 2, 4 * p + k / 2, 1);
    DivModUnique(b, UNSTABLE_FLAG, 16 * p + 2 * k + 2 + u, r);
    DivModUnique(16 * p + 2 * k + 2 + u, 2, 8 * p + k + 1, u);
  }

  /** The bits of an aligned page with the unstable flag and a round byte added. */
  lemma TagBits(a: Addr, low: nat)
    requires PageAligned(a) && low < 0x100
    ensures PageOf(a + UNSTABLE_FLAG + low) == a
    ensures HasBit(a + UNSTABLE_FLAG + low, UNSTABLE_FLAG)
    ensures !HasBit(a + UNSTABLE_FLAG + low, STABLE_FLAG)
    ensures (a + UNSTABLE_FLAG + low) % 0x100 == low
  {
    var p := a / PAGE_SIZE;
    var r := a + UNSTABLE_FLAG + low;
    DivModUnique(a, PAGE_SIZE, p, 0);
    DivModUnique(r, PAGE_SIZE, p, UNSTABLE_FLAG + low);
    DivModUnique(r, STABLE_FLAG, 8 * p, UNSTABLE_FLAG + low);
    DivModUnique(8 * p, 2, 4 * p, 0);
    DivModUnique(r, UNSTABLE_FLAG, 16 * p + 1, low);
    DivModUnique(16 * p + 1, 2, 8 * p, 1);
    DivModUnique(r, 0x100, 16 * p + 1, low);
  }

  /** `(unsigned char)(scan_round - address)`: how many rounds (modulo 256)
      ago an unstable rmap_item was tagged. The unsigned long subtraction
      wraps modulo 2^64, a multiple of 256, so the byte is the Euclidean
      remainder of the integer difference. */
  function Age(scanRound: nat, address: Addr): nat {
    (scanRound - address) % 0x100
  }

  /** A reverse-mapping item: one virtual page of one address space.
      `head` names the stable node the item hangs off (meaningful while the
      STABLE_FLAG is set); `oldchecksum` keeps the frozen bit in bit 0. */
  datatype RmapItem = RmapItem(id: ItemId, address: Addr, oldchecksum: nat, head: Option<Kpfn>)

  /** The global statistics of mm/lksm.c. */
  datatype Counters = Counters(
    pagesShared: int,       // ksm_pages_shared
    pagesSharing: int,      // ksm_pages_sharing
    pagesUnshared: int,     // ksm_pages_unshared
    rmapItems: int,         // ksm_rmap_items
    chains: int,            // ksm_stable_node_chains
    dups: int,              // ksm_stable_node_dups
    slotNrMerged: int,      // lksm_slot_nr_merged
    nrMerged: int,          // lksm_nr_merged
    slotNrBroken: int,      // lksm_slot_nr_broken
    nrBroken: int)          // lksm_nr_broken

  /** Sum of `f` over the elements of `s`. */
  function Sum<T>(s: seq<T>, f: T -> int): int
    decreases |s|
  {
    if |s| == 0 then 0 else f(s[0]) + Sum(s[1..], f)
  }

  lemma {:induction false} SumConcat<T>(a: seq<T>, b: seq<T>, f: T -> int)
    ensures Sum(a + b, f) == Sum(a, f) + Sum(b, f)
    decreases |a|
  {
    if |a| == 0 {
      assert a + b == b;
    } else {
      assert (a + b)[1..] == a[1..] + b;
      SumConcat(a[1..], b, f);
    }
  }

  lemma SumSingle<T>(x: T, f: T -> int)
    ensures Sum([x], f) == f(x)
  {
  }

  /** Replacing one element changes the sum by the difference of the two. */
  lemma SumUpdate<T>(s: seq<T>, i: nat, x: T, f: T -> int)
    requires i < |s|
    ensures Sum(s[i := x], f) == Sum(s, f) - f(s[i]) + f(x)
  {
    assert s == s[..i] + [s[i]] + s[i+1..];
    assert s[i := x] == s[..i] + [x] + s[i+1..];
    SumConcat(s[..i] + [s[i]], s[i+1..], f);
    SumConcat(s[..i], [s[i]], f);
    SumConcat(s[..i] + [x], s[i+1..], f);
    SumConcat(s[..i], [x], f);
  }

  /** Removing one element lowers the sum by that element's share. */
  lemma SumRemove<T>(s: seq<T>, i: nat, f: T -> int)
    requires i < |s|
    ensures Sum(s[..i] + s[i+1..], f) == Sum(s, f) - f(s[i])
  {
    var a, b := s[..i], s[i+1..];
    assert s == a + s[i..];
    assert s[i..][1..] == b;
    SumConcat(a, s[i..], f);
    SumConcat(a, b, f);
  }

  /** Inserting one element raises the sum by that element's share. */
  lemma SumInsert<T>(s: seq<T>, i: nat, x: T, f: T -> int)
    requires i <= |s|
    ensures Sum(s[..i] + [x] + s[i..], f) == Sum(s, f) + f(x)
  {
    assert s == s[..i] + s[i..];
    SumConcat(s[..i], s[i..], f);
    SumConcat(s[..i] + [x], s[i..], f);
    SumConcat(s[..i], [x], f);
  }

  lemma SumNonNegative<T>(s: seq<T>, f: T -> int)
    requires forall i :: 0 <= i < |s| ==> f(s[i]) >= 0
    ensures Sum(s, f) >= 0
    decreases |s|
  {
    if |s| > 0 {
      SumNonNegative(s[1..], f);
    }
  }

  /** A prefix of a non-empty sequence is its head followed by a prefix of its tail. */
  lemma PrefixCons<T>(s: seq<T>, n: nat)
    requires 0 < |s| && n < |s|
    ensures s[..n + 1] == [s[0]] + s[1..][..n]
    ensures s[n + 1..] == s[1..][n..]
  {
    var a := s[..n + 1];
    var b := [s[0]] + s[1..][..n];
    assert |a| == |b|;
    forall k | 0 <= k < |a| ensures a[k] == b[k] {
      if k > 0 { assert b[k] == s[1..][k - 1]; }
    }
  }
}
