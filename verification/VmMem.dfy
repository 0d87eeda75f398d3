/**
  The guest memory manager: a sorted list of guest-physical regions, each backed by a host
  buffer, a first-fit allocator, byte transfers, and the page tables kept in that memory.
 */
module VmMem {
  import opened Words
  import opened PageTable
  import opened PageMap
  import opened Processor

  /** A region of guest-physical memory and the host buffer behind it. */
  class Region {
    const gpa: nat
    const npages: nat
    const hva: array<Byte>
    var next: Region?

    constructor (gpa: nat, npages: nat, hva: array<Byte>, next: Region?)
      ensures this.gpa == gpa && this.npages == npages && this.hva == hva && this.next == next
    {
      this.gpa, this.npages, this.hva, this.next := gpa, npages, hva, next;
    }

    ghost function End(): nat {
      gpa + 0x1000 * npages
    }

    ghost predicate Has(a: int) {
      gpa <= a < gpa + 0x1000 * npages
    }
  }

  /** A host pointer into a buffer. */
  datatype HostPtr = Null | At(buf: array<Byte>, off: nat)

  /** p is the place behind address a in the region that has it. */
  ghost predicate PointsTo(rs: seq<Region>, a: int, p: HostPtr) {
    exists i :: 0 <= i < |rs| && rs[i].Has(a) && p == At(rs[i].hva, a - rs[i].gpa)
  }

  // ---- checking a buffer ----

  /**
    What vm_mem_verify finds in the nbytes bytes at gva, given the stale bytes of its entry variable at
    each walk: it passes exactly when every walked address is backed, and stops at the first that is not.
   */
  ghost predicate Scanned(m: Memory, root: nat, gva: nat, nbytes: nat, stales: seq<seq<Byte>>, passed: bool) {
    && |stales| <= nbytes && (if passed then |stales| == nbytes else stales != [])
    && (forall j :: 0 <= j < |stales| ==> |stales[j]| == 8)
    && forall j :: 0 <= j < |stales| ==>
         (Walk(m, root, GvaPlus(gva, j), stales[j]) in m <==> passed || j < |stales| - 1)
  }

  /** Over mapped pages it passes exactly when every translated byte is backed, whatever was stale. */
  lemma {:induction false} ScannedMapped(m: Memory, tree: Tree, gva: nat, nbytes: nat, stales: seq<seq<Byte>>,
        passed: bool)
    requires Radix(m, tree) && Scanned(m, 0x1000 * tree[ROOT], gva, nbytes, stales, passed)
    requires forall j :: 0 <= j < nbytes ==> Vpn(GvaPlus(gva, j)) in PagesOf(tree)
    ensures passed <==> forall j :: 0 <= j < nbytes ==> Translate(PagesOf(tree), GvaPlus(gva, j)) in m
  {
    hide Radix, Walk, GvaPlus, PagesOf, Translate, Vpn;
    forall j | 0 <= j < |stales|
      ensures Vpn(GvaPlus(gva, j)) in PagesOf(tree)
      ensures Translate(PagesOf(tree), GvaPlus(gva, j)) in m <==> passed || j < |stales| - 1
    {
      WalkIsTranslate(m, tree, GvaPlus(gva, j), stales[j]);
    }
    if !passed {
      assert Translate(PagesOf(tree), GvaPlus(gva, |stales| - 1)) !in m;
    }
  }

  // ---- the host ----

  /** What is asked of the host: valloc, hv_vm_map, malloc of a list node, and mmap. */
  datatype Request = HostMemory(size: nat) | GuestRange(gpa: nat, size: nat) | ListNode | FileMapping(size: nat)

  /** How the host would answer its n-th request. */
  type Policy = (nat, Request) -> bool

  /** The answer to the n-th request; no guest range beyond 52 address bits is ever granted. */
  predicate Grants(policy: Policy, n: nat, r: Request) {
    policy(n, r) && (r.GuestRange? ==> r.gpa + r.size <= 0x10_0000_0000_0000)
  }

  /** Every request from position from on was granted. */
  ghost predicate AllGranted(policy: Policy, log: seq<Request>, from: nat) {
    forall i :: from <= i < |log| ==> Grants(policy, i, log[i])
  }

  lemma GrantedSplit(policy: Policy, a: seq<Request>, b: seq<Request>, from: nat)
    requires from <= |a| && a <= b
    ensures AllGranted(policy, b, from) <==> AllGranted(policy, a, from) && AllGranted(policy, b, |a|)
  {
    hide Grants;
    assert forall i :: 0 <= i < |a| ==> a[i] == b[i];
  }

  lemma NothingAsked(policy: Policy, log: seq<Request>)
    ensures AllGranted(policy, log, |log|)
  {
  }

  lemma GrantedNext(policy: Policy, log: seq<Request>, from: nat, r: Request)
    requires from <= |log|
    ensures AllGranted(policy, log + [r], from) <==> AllGranted(policy, log, from) && Grants(policy, |log|, r)
  {
    hide Grants;
    assert forall i :: 0 <= i < |log| ==> (log + [r])[i] == log[i];
    assert (log + [r])[|log|] == r;
  }

  /**
    What an allocation of npages pages at gpa asks when its first request is the host's n-th: it stops
    at a refusal.
   */
  function AllocRequests(policy: Policy, n: nat, gpa: nat, npages: nat): seq<Request> {
    if npages == 0 then []
    else [HostMemory(0x1000 * npages)]
         + if Grants(policy, n, HostMemory(0x1000 * npages)) then MapRequests(policy, n + 1, gpa, npages) else []
  }

  function MapRequests(policy: Policy, n: nat, gpa: nat, npages: nat): seq<Request> {
    [GuestRange(gpa, 0x1000 * npages)] + if Grants(policy, n, GuestRange(gpa, 0x1000 * npages)) then [ListNode] else []
  }

  // ---- region lists ----

  /** Page aligned, not empty, below 2^52, and with a buffer of its size. */
  ghost predicate Proper(r: Region) {
    && r.npages >= 1 && r.gpa % 0x1000 == 0 && r.End() <= 0x10_0000_0000_0000
    && r.hva.Length == 0x1000 * r.npages
  }

  ghost predicate Before(r: Region, s: Region) {
    r.End() <= s.gpa && r.hva != s.hva
  }

  /** Proper regions, sorted by address and disjoint, each with a buffer of its own. */
  ghost predicate WellFormed(rs: seq<Region>) {
    && (forall i :: 0 <= i < |rs| ==> Proper(rs[i]))
    && (forall i, j {:trigger Before(rs[i], rs[j])} :: 0 <= i < j < |rs| ==> Before(rs[i], rs[j]))
  }

  /** The npages pages at gpa meet no region. */
  ghost predicate Free(rs: seq<Region>, gpa: nat, npages: nat) {
    forall i :: 0 <= i < |rs| ==> rs[i].End() <= gpa || gpa + 0x1000 * npages <= rs[i].gpa
  }

  lemma Later(rs: seq<Region>, i: nat)
    requires WellFormed(rs) && i < |rs|
    ensures forall j :: i < j < |rs| ==> rs[i].End() <= rs[j].gpa && rs[i] != rs[j]
    ensures forall j :: 0 <= j < i ==> rs[j].End() <= rs[i].gpa && rs[i] != rs[j]
  {
    assert Proper(rs[i]);
    forall j | 0 <= j < |rs| && j != i ensures if j < i then Before(rs[j], rs[i]) else Before(rs[i], rs[j]) {
    }
  }

  /** How many pages a 64-bit size in bytes holds when npages were asked for. */
  function PagesInSize(npages: nat): nat {
    npages % 0x10_0000_0000_0000
  }

  lemma SizeFits(npages: nat)
    requires npages < 0x10_0000_0000_0000
    ensures PagesInSize(npages) == npages
  {
  }

  /** Between the last region that ends at or below gpa and the first that starts above the range. */
  lemma Gap(rs: seq<Region>, i: nat, gpa: nat, npages: nat)
    requires WellFormed(rs) && i <= |rs|
    requires forall j :: 0 <= j < i ==> rs[j].End() <= gpa
    requires i < |rs| ==> gpa + 0x1000 * npages <= rs[i].gpa
    ensures Free(rs, gpa, npages)
  {
    if i < |rs| { Later(rs, i); }
  }

  ghost predicate NoRoomBelow(rs: seq<Region>, gpa: nat, npages: nat) {
    forall b :: 0 <= b < gpa ==> !Free(rs, b, npages)
  }

  /** gpa is page aligned, and the lowest address of any alignment with room for npages pages. */
  ghost predicate LowestFree(rs: seq<Region>, gpa: nat, npages: nat) {
    gpa % 0x1000 == 0 && Free(rs, gpa, npages) && NoRoomBelow(rs, gpa, npages)
  }

  /** Where region i - 1 ends. */
  ghost function EndBefore(rs: seq<Region>, i: nat): nat
    requires i <= |rs|
  {
    if i == 0 then 0 else rs[i - 1].End()
  }

  /** When the gap before region i is too small, the range fits nowhere below that region's end. */
  lemma GapTooSmall(rs: seq<Region>, i: nat, start: nat, n: nat)
    requires i < |rs| && rs[i].gpa - start < 0x1000 * n && NoRoomBelow(rs, start, n)
    ensures NoRoomBelow(rs, rs[i].End(), n)
  {
    forall b | 0 <= b < rs[i].End() ensures !Free(rs, b, n) {
      if b >= start {
        assert !(rs[i].End() <= b || b + 0x1000 * n <= rs[i].gpa);
      }
    }
  }

  /** The first gap that is large enough, or the end of the list, is the lowest free place. */
  lemma FirstGap(rs: seq<Region>, i: nat, n: nat)
    requires WellFormed(rs) && i <= |rs| && NoRoomBelow(rs, EndBefore(rs, i), n)
    requires i < |rs| ==> rs[i].gpa - EndBefore(rs, i) >= 0x1000 * n
    ensures LowestFree(rs, EndBefore(rs, i), n) && EndBefore(rs, i) <= 0x10_0000_0000_0000
  {
    if i > 0 { Later(rs, i - 1); }
    assert i > 0 ==> Proper(rs[i - 1]);
    Gap(rs, i, EndBefore(rs, i), n);
    AlignedEnd(rs, i);
  }

  lemma AlignedEnd(rs: seq<Region>, i: nat)
    requires WellFormed(rs) && i <= |rs|
    ensures EndBefore(rs, i) % 0x1000 == 0
  {
    assert i > 0 ==> Proper(rs[i - 1]);
  }

  lemma NothingBelowZero(rs: seq<Region>, n: nat)
    ensures NoRoomBelow(rs, 0, n) && EndBefore(rs, 0) == 0
  {
  }

  lemma StepEnd(rs: seq<Region>, i: nat)
    requires i < |rs|
    ensures EndBefore(rs, i + 1) == rs[i].End()
  {
  }

  lemma InOrder(rs: seq<Region>, i: nat)
    requires WellFormed(rs) && i < |rs|
    ensures EndBefore(rs, i) <= rs[i].gpa
  {
    Later(rs, i);
  }

  /** The addresses of m are those of the regions. */
  ghost predicate Backs(rs: seq<Region>, m: Memory) {
    forall a :: a in m <==> InRegions(rs, a)
  }

  lemma HoldsBacks(rs: seq<Region>, m: Memory)
    requires WellFormed(rs) && Holds(rs, m)
    ensures Backs(rs, m)
  {
    hide Proper, Before;
    forall a | InRegions(rs, a) ensures a in m {
      var i :| 0 <= i < |rs| && rs[i].Has(a);
    }
  }

  /** Everything below the lowest free page is backed. */
  lemma {:induction false} FilledBelow(rs: seq<Region>, m: Memory, gpa: nat)
    requires WellFormed(rs) && Backs(rs, m) && LowestFree(rs, gpa, 1)
    ensures forall a :: 0 <= a < gpa ==> a in m
  {
    hide Before;
    forall a | 0 <= a < gpa ensures a in m {
      var b := a / 0x1000 * 0x1000;
      assert !Free(rs, b, 1);
      var i :| 0 <= i < |rs| && !(rs[i].End() <= b || b + 0x1000 <= rs[i].gpa);
      assert Proper(rs[i]);
      WholePage(rs[i].gpa, rs[i].npages, a);
      assert rs[i].Has(a);
    }
  }

  /** A page-aligned range that meets the page of a contains a. */
  lemma WholePage(gpa: nat, npages: nat, a: nat)
    requires gpa % 0x1000 == 0
    requires gpa < a / 0x1000 * 0x1000 + 0x1000 && a / 0x1000 * 0x1000 < gpa + 0x1000 * npages
    ensures gpa <= a < gpa + 0x1000 * npages
  {
  }

  /** A free range that 64 bits can hold overlaps nothing. */
  lemma NotOverlapped(rs: seq<Region>, base: nat, npages: nat)
    requires Free(rs, base, npages) && base % 0x1000 == 0
    ensures !Overlaps(rs, base, Wrap(base + 0x1000 * npages)) && base / 0x1000 * 0x1000 == base
  {
    WrapBelow(base + 0x1000 * npages);
  }

  /** Some region reaches into [base, end); end is what 64 bits hold of the range's end. */
  ghost predicate Overlaps(rs: seq<Region>, base: nat, end: nat) {
    exists i :: 0 <= i < |rs| && rs[i].End() > base && rs[i].gpa < end
  }

  /** The first region that ends above base decides; without wrap-around the test is exact. */
  lemma OverlapsAt(rs: seq<Region>, k: nat, base: nat, npages: nat)
    requires WellFormed(rs) && k <= |rs| && npages >= 1
    requires forall j :: 0 <= j < k ==> rs[j].End() <= base
    requires k < |rs| ==> rs[k].End() > base
    ensures var end := Wrap(base + 0x1000 * npages);
            Overlaps(rs, base, end) <==> k < |rs| && rs[k].gpa < end
    ensures Overlaps(rs, base, Wrap(base + 0x1000 * npages)) ==> !Free(rs, base, npages)
  {
    var end := Wrap(base + 0x1000 * npages);
    WrapBelow(base + 0x1000 * npages);
    if k < |rs| { Later(rs, k); }
  }

  lemma WrapBelow(x: nat)
    ensures Wrap(x) <= x && (x < 0x1_0000_0000_0000_0000 ==> Wrap(x) == x)
  {
  }

  lemma GrantedFits(policy: Policy, n: nat, gpa: nat, size: nat)
    requires Grants(policy, n, GuestRange(gpa, size))
    ensures gpa + size <= 0x10_0000_0000_0000
  {
  }

  /** The two requests of map_gpa are both granted exactly when each answer says so. */
  lemma MapAnswers(policy: Policy, log: seq<Request>, gpa: nat, npages: nat)
    ensures var r := GuestRange(gpa, 0x1000 * npages);
            if Grants(policy, |log|, r) then
              && MapRequests(policy, |log|, gpa, npages) == [r] + [ListNode]
              && (AllGranted(policy, log + [r] + [ListNode], |log|) <==> Grants(policy, |log| + 1, ListNode))
            else
              && MapRequests(policy, |log|, gpa, npages) == [r]
              && !AllGranted(policy, log + [r], |log|)
  {
    hide Grants, AllGranted;
    var r := GuestRange(gpa, 0x1000 * npages);
    NothingAsked(policy, log);
    GrantedNext(policy, log, |log|, r);
    GrantedNext(policy, log + [r], |log|, ListNode);
  }

  lemma FreeUnbacked(rs: seq<Region>, m: Memory, gpa: nat, npages: nat, a: int)
    requires WellFormed(rs) && Holds(rs, m) && Free(rs, gpa, npages)
    requires gpa <= a < gpa + 0x1000 * npages
    ensures a !in m
  {
  }

  /** A range is free exactly when none of its addresses is backed. */
  lemma {:induction false} FreeIffUnbacked(rs: seq<Region>, m: Memory, gpa: nat, npages: nat)
    requires WellFormed(rs) && Backs(rs, m) && npages >= 1
    ensures Free(rs, gpa, npages) <==> forall a :: gpa <= a < gpa + 0x1000 * npages ==> a !in m
  {
    hide Before;
    if !Free(rs, gpa, npages) {
      var i :| 0 <= i < |rs| && !(rs[i].End() <= gpa || gpa + 0x1000 * npages <= rs[i].gpa);
      assert Proper(rs[i]);
      var a := Max(gpa, rs[i].gpa);
      assert rs[i].Has(a);
      assert a in m;
    }
  }

  ghost function Buffers(rs: seq<Region>): set<array<Byte>> {
    set r | r in rs :: r.hva
  }

  predicate Within(a: int, lo: int, n: nat) {
    lo <= a < lo + n
  }

  /** The memory made of buffer contents s placed at gpa. */
  function BytesAt(gpa: int, s: seq<Byte>): (m: Memory)
    ensures forall a :: a in m <==> gpa <= a < gpa + |s|
    ensures forall a :: a in m ==> m[a] == s[a - gpa]
  {
    map a | gpa <= a < gpa + |s| && Within(a, gpa, |s|) :: s[a - gpa]
  }

  ghost function Insert(rs: seq<Region>, k: nat, r: Region): seq<Region>
    requires k <= |rs|
  {
    rs[..k] + [r] + rs[k..]
  }

  /** The list that starts at head has exactly the nodes rs. */
  ghost predicate Linked(head: Region?, rs: seq<Region>)
    reads rs
  {
    && head == (if rs == [] then null else rs[0])
    && forall i {:trigger rs[i].next} :: 0 <= i < |rs| ==> rs[i].next == if i + 1 < |rs| then rs[i + 1] else null
  }

  /** m is what the buffers hold. */
  ghost predicate Holds(rs: seq<Region>, m: Memory)
    requires WellFormed(rs)
    reads Buffers(rs)
  {
    && (forall i, a {:trigger rs[i].Has(a)} :: 0 <= i < |rs| && rs[i].Has(a) ==>
          a in m && rs[i].hva in Buffers(rs) && m[a] == rs[i].hva[a - rs[i].gpa])
    && (forall a :: a in m ==> InRegions(rs, a))
  }

  ghost predicate InRegions(rs: seq<Region>, a: int) {
    exists i :: 0 <= i < |rs| && rs[i].Has(a)
  }

  lemma InsertAt(rs: seq<Region>, k: nat, r: Region)
    requires k <= |rs|
    ensures |Insert(rs, k, r)| == |rs| + 1
    ensures Insert(rs, k, r)[k] == r
    ensures forall i :: 0 <= i < k ==> Insert(rs, k, r)[i] == rs[i]
    ensures forall i :: k < i <= |rs| ==> Insert(rs, k, r)[i] == rs[i - 1]
    ensures forall i :: k <= i < |rs| ==> Insert(rs, k, r)[i + 1] == rs[i]
  {
  }

  lemma InsertBuffers(rs: seq<Region>, k: nat, r: Region)
    requires k <= |rs|
    ensures Buffers(Insert(rs, k, r)) == Buffers(rs) + {r.hva}
  {
    var s := Insert(rs, k, r);
    assert multiset(s) == multiset(rs[..k] + rs[k..]) + multiset{r};
    assert rs[..k] + rs[k..] == rs;
    assert forall x :: x in s <==> x in multiset(s);
    assert forall x :: x in rs <==> x in multiset(rs);
  }

  lemma InsertWellFormed(rs: seq<Region>, k: nat, r: Region)
    requires WellFormed(rs) && k <= |rs| && Proper(r) && r.hva !in Buffers(rs)
    requires forall i :: 0 <= i < k ==> rs[i].End() <= r.gpa
    requires k < |rs| ==> r.End() <= rs[k].gpa
    ensures WellFormed(Insert(rs, k, r))
  {
    hide Insert;
    InsertAt(rs, k, r);
    var s := Insert(rs, k, r);
    forall i, j | 0 <= i < j < |s| ensures Before(s[i], s[j]) {
      if i == k {
        assert rs[j - 1] in rs && s[j] == rs[j - 1];
        assert k < j - 1 ==> Before(rs[k], rs[j - 1]);
      } else if j == k {
        assert rs[i] in rs && s[i] == rs[i];
      } else {
        assert Before(rs[if i < k then i else i - 1], rs[if j < k then j else j - 1]);
      }
    }
  }

  lemma InsertBacked(rs: seq<Region>, k: nat, r: Region, a: int)
    requires k <= |rs|
    ensures InRegions(Insert(rs, k, r), a) <==> InRegions(rs, a) || r.Has(a)
  {
    hide Insert;
    InsertAt(rs, k, r);
    var s := Insert(rs, k, r);
    if i :| 0 <= i < |rs| && rs[i].Has(a) {
      assert s[if i < k then i else i + 1].Has(a);
    }
    if r.Has(a) {
      assert s[k].Has(a);
    }
    if i :| 0 <= i < |s| && s[i].Has(a) {
      if i != k {
        assert rs[if i < k then i else i - 1].Has(a);
      }
    }
  }

  lemma InsertHoldsAt(rs: seq<Region>, k: nat, r: Region, m: Memory, i: nat, a: int)
    requires WellFormed(rs) && k <= |rs| && WellFormed(Insert(rs, k, r))
    requires Holds(rs, m)
    requires i <= |rs| && Insert(rs, k, r)[i].Has(a)
    ensures var s, m' := Insert(rs, k, r), m + BytesAt(r.gpa, r.hva[..]);
            s[i] in s && a in m' && m'[a] == s[i].hva[a - s[i].gpa]
  {
    hide Insert, BytesAt;
    InsertAt(rs, k, r);
    var s := Insert(rs, k, r);
    assert s[i] in s && s[k] == r && Proper(r);
    if i != k {
      assert rs[if i < k then i else i - 1].Has(a);
      assert if i < k then Before(s[i], s[k]) else Before(s[k], s[i]);
    }
  }

  lemma InsertHolds(rs: seq<Region>, k: nat, r: Region, m: Memory)
    requires WellFormed(rs) && k <= |rs| && WellFormed(Insert(rs, k, r))
    requires Holds(rs, m)
    ensures Holds(Insert(rs, k, r), m + BytesAt(r.gpa, r.hva[..]))
  {
    hide BytesAt, InRegions, Before;
    var s, m' := Insert(rs, k, r), m + BytesAt(r.gpa, r.hva[..]);
    forall i, a | 0 <= i < |s| && s[i].Has(a)
      ensures s[i].hva in Buffers(s) && a in m' && m'[a] == s[i].hva[a - s[i].gpa]
    {
      InsertHoldsAt(rs, k, r, m, i, a);
    }
    forall a | a in m' ensures InRegions(s, a) {
      assert s[k] == r && Proper(s[k]);
      InsertBacked(rs, k, r, a);
    }
  }

  /** Page t is a region of its own. */
  ghost predicate HasPage(rs: seq<Region>, t: nat) {
    HasRegion(rs, 0x1000 * t, 1)
  }

  ghost predicate HasRegion(rs: seq<Region>, gpa: nat, npages: nat) {
    exists r :: r in rs && r.gpa == gpa && r.npages == npages
  }

  /** Every table page is a region of its own. */
  ghost predicate Owned(rs: seq<Region>, tree: Tree) {
    forall n :: n in tree && n.level >= 1 ==> HasPage(rs, tree[n])
  }

  lemma InsertKeeps(rs: seq<Region>, k: nat, r: Region)
    requires k <= |rs|
    ensures r in Insert(rs, k, r)
    ensures forall x :: x in rs ==> x in Insert(rs, k, r)
    ensures forall x :: x in Insert(rs, k, r) ==> x in rs || x == r
  {
    hide Insert;
    InsertAt(rs, k, r);
    forall x | x in rs ensures x in Insert(rs, k, r) {
      var i :| 0 <= i < |rs| && rs[i] == x;
      assert Insert(rs, k, r)[if i < k then i else i + 1] == x;
    }
  }

  lemma OwnedGrows(rs: seq<Region>, rs': seq<Region>, tree: Tree, c: Node, t: nat)
    requires Owned(rs, tree) && (forall r :: r in rs ==> r in rs')
    requires c.level >= 1 && c !in tree ==> HasPage(rs', t)
    requires c.level >= 1 && c in tree ==> tree[c] == t
    ensures Owned(rs', tree[c := t])
  {
    forall n | n in tree && n.level >= 1 ensures HasPage(rs', tree[n]) {
      assert HasPage(rs, tree[n]);
    }
  }

  lemma NewRegionKeepsTables(rs: seq<Region>, m: Memory, tree: Tree, k: nat, r: Region, s: seq<Byte>)
    requires k <= |rs| && Radix(m, tree) && Owned(rs, tree)
    requires forall a :: r.gpa <= a < r.gpa + |s| ==> a !in m
    ensures Radix(m + BytesAt(r.gpa, s), tree) && Owned(Insert(rs, k, r), tree)
  {
    hide Radix, Insert;
    RadixGrows(m, m + BytesAt(r.gpa, s), tree);
    InsertKeeps(rs, k, r);
    forall n | n in tree && n.level >= 1 ensures HasPage(Insert(rs, k, r), tree[n]) {
      assert HasPage(rs, tree[n]);
    }
  }

  /** A freshly allocated page of zeros, as memory. */
  lemma AllocAddsPage(m: Memory, gpa: nat)
    requires gpa % 0x1000 == 0
    requires forall a :: gpa <= a < gpa + 0x1000 ==> a !in m
    ensures AddsZeroPage(m, m + BytesAt(gpa, seq(0x1000, _ => 0)), gpa / 0x1000)
  {
  }

  /** No gaps: each region starts where the one before ends, the first at 0. */
  ghost predicate Packed(rs: seq<Region>) {
    forall i :: 0 <= i < |rs| ==> rs[i].gpa == Top(rs[..i])
  }

  ghost function Top(rs: seq<Region>): nat {
    if rs == [] then 0 else rs[|rs| - 1].End()
  }

  /** From a packed list, single pages were added on top. */
  ghost predicate Stacked(rs: seq<Region>, rs': seq<Region>) {
    Packed(rs) ==> Packed(rs') && Top(rs') == Top(rs) + 0x1000 * (|rs'| - |rs|)
  }

  lemma {:induction false} PackedBelow(rs: seq<Region>, gpa: nat, i: nat)
    requires Packed(rs) && Free(rs, gpa, 1) && i <= |rs|
    ensures Top(rs[..i]) <= gpa
  {
    if i > 0 {
      PackedBelow(rs, gpa, i - 1);
      assert rs[i - 1].gpa == Top(rs[..i - 1]);
    }
  }

  lemma {:induction false} StackedInsert(rs: seq<Region>, k: nat, r: Region)
    requires WellFormed(rs) && k <= |rs| && WellFormed(Insert(rs, k, r))
    requires r.npages == 1 && LowestFree(rs, r.gpa, 1)
    ensures Stacked(rs, Insert(rs, k, r))
  {
    if Packed(rs) {
      PackedBelow(rs, r.gpa, |rs|);
      assert rs[..|rs|] == rs;
      var s := Insert(rs, k, r);
      if k < |rs| {
        assert s[k] == r && s[k + 1] == rs[k];
        assert Before(s[k], s[k + 1]);
        Later(rs, |rs| - 1);
        assert false;
      }
      if rs != [] { Later(rs, |rs| - 1); }
      Gap(rs, |rs|, Top(rs), 1);
      assert r.gpa == Top(rs);
      forall i | 0 <= i < |s| ensures s[i].gpa == Top(s[..i]) {
        assert s[..i] == rs[..i];
      }
    }
  }

  /** Requests that allocate single pages, each guest range being at the lowest free page. */
  ghost predicate PageRequest(r: Request, m: Memory) {
    match r
    case HostMemory(size) => size == 0x1000
    case GuestRange(gpa, size) => size == 0x1000 && forall a :: 0 <= a < gpa ==> a in m
    case ListNode => true
    case FileMapping(_) => false
  }

  ghost predicate PageRequests(log: seq<Request>, from: nat, m: Memory) {
    forall i :: from <= i < |log| ==> PageRequest(log[i], m)
  }

  /** After the requests of base, the log has only requests for single pages. */
  ghost predicate PagesAfter(base: seq<Request>, log: seq<Request>, m: Memory) {
    base <= log && PageRequests(log, |base|, m)
  }

  lemma PagesAfterSame(base: seq<Request>, m: Memory)
    ensures PagesAfter(base, base, m)
  {
  }

  lemma PagesAfterPrefix(base: seq<Request>, more: seq<Request>, log: seq<Request>, m: Memory)
    requires PagesAfter(base + more, log, m)
    ensures base <= log
  {
  }

  lemma PagesAfterGrows(base: seq<Request>, log: seq<Request>, m: Memory, m': Memory)
    requires PagesAfter(base, log, m) && m.Keys <= m'.Keys
    ensures PagesAfter(base, log, m')
  {
    forall i | |base| <= i < |log| ensures PageRequest(log[i], m') {
      assert PageRequest(log[i], m);
      assert forall a :: a in m ==> a in m.Keys && a in m'.Keys;
    }
  }

  lemma PagesAfterGrew(rs: seq<Region>, m: Memory, log: seq<Request>, rs': seq<Region>, m': Memory, log': seq<Request>)
    requires Grew(rs, m, log, rs', m', log')
    ensures PagesAfter(log, log', m') && m.Keys <= m'.Keys
  {
  }

  /** Between two states of the manager, at most single pages were allocated, by first fit. */
  ghost predicate Grew(rs: seq<Region>, m: Memory, log: seq<Request>, rs': seq<Region>, m': Memory,
        log': seq<Request>) {
    m.Keys <= m'.Keys && log <= log' && PageRequests(log', |log|, m') && Stacked(rs, rs')
  }

  lemma GrewSame(rs: seq<Region>, m: Memory, m': Memory, log: seq<Request>)
    requires m'.Keys == m.Keys
    ensures Grew(rs, m, log, rs, m', log)
  {
  }

  lemma GrewStore(rs: seq<Region>, m: Memory, log: seq<Request>, rs1: seq<Region>, m1: Memory, log1: seq<Request>,
        m2: Memory)
    requires Grew(rs, m, log, rs1, m1, log1) && m2.Keys == m1.Keys
    ensures Grew(rs, m, log, rs1, m2, log1)
  {
    hide Grew;
    GrewSame(rs1, m1, m2, log1);
    GrewTwice(rs, m, log, rs1, m1, log1, rs1, m2, log1);
  }

  lemma StackedSame(rs: seq<Region>)
    ensures Stacked(rs, rs)
  {
  }

  lemma GrewTwice(rs: seq<Region>, m: Memory, log: seq<Request>, rs1: seq<Region>, m1: Memory, log1: seq<Request>,
        rs2: seq<Region>, m2: Memory, log2: seq<Request>)
    requires Grew(rs, m, log, rs1, m1, log1) && Grew(rs1, m1, log1, rs2, m2, log2)
    ensures Grew(rs, m, log, rs2, m2, log2)
  {
    hide Packed, Top;
    forall i | |log| <= i < |log2| ensures PageRequest(log2[i], m2) {
      if i < |log1| {
        assert log2[i] == log1[i] && PageRequest(log1[i], m1);
        assert forall a :: a in m1 ==> a in m1.Keys && a in m2.Keys;
      }
    }
  }

  lemma {:induction false} GrewByAlloc(policy: Policy, rs: seq<Region>, m: Memory, log: seq<Request>, fit: nat,
        m': Memory)
    requires WellFormed(rs) && Backs(rs, m) && LowestFree(rs, fit, 1) && m.Keys <= m'.Keys
    ensures PageRequests(log + AllocRequests(policy, |log|, fit, 1), |log|, m')
    ensures log <= log + AllocRequests(policy, |log|, fit, 1)
  {
    hide LowestFree, Backs;
    FilledBelow(rs, m, fit);
    assert forall a :: a in m ==> a in m.Keys && a in m'.Keys;
    var l := log + AllocRequests(policy, |log|, fit, 1);
    forall i | |log| <= i < |l| ensures PageRequest(l[i], m') {
      assert l[i] == AllocRequests(policy, |log|, fit, 1)[i - |log|];
    }
  }

  lemma BelowLevel(v: nat, level: nat)
    requires level >= 1
    ensures NodeAt(v, level - 1).level == level - 1
  {
  }

  /** The packed list after the first allocation and the tables on top of it. */
  lemma FirstRegion(rs0: seq<Region>, k: nat, r: Region, rs1: seq<Region>, m1: Memory, log1: seq<Request>,
        rs2: seq<Region>, m2: Memory, log2: seq<Request>)
    requires rs0 == [] && k == 0 && rs1 == Insert(rs0, k, r) && r.gpa == 0
    requires Grew(rs1, m1, log1, rs2, m2, log2)
    ensures Packed(rs2) && Top(rs2) == 0x1000 * (r.npages + |rs2| - 1)
  {
    assert rs1 == [r] && rs1[..0] == [];
  }

  /** The lowest free place is 0 exactly when 0 is free. */
  lemma LowestIsZero(rs: seq<Region>, fit: nat, npages: nat)
    requires LowestFree(rs, fit, npages)
    ensures fit == 0 <==> Free(rs, 0, npages)
  {
  }

  lemma ZerosAt(m: Memory, n: nat)
    ensures var m' := m + BytesAt(0, seq(n, _ => 0));
            forall a :: 0 <= a < n ==> a in m' && m'[a] == 0
  {
  }

  /** Zeros placed where nothing was backed are still there, and in no table. */
  lemma ZerosKept(m0: Memory, tree0: Tree, started: bool, m: Memory, m': Memory, tree': Tree, n: nat)
    requires if started then Radix(m0, tree0) else tree0 == map[]
    requires forall a :: 0 <= a < n ==> a !in m0 && a in m && m[a] == 0
    requires Kept(m, tree0, m', tree')
    ensures NoTables(tree', 0, n) && forall a :: 0 <= a < n ==> a in m' && m'[a] == 0
  {
    hide Radix, InTables, Kept;
    forall a | 0 <= a < n ensures a in m' && m'[a] == 0 && !InTables(tree', a) {
      NotInTables(m0, tree0, started, a);
      KeptAt(m, tree0, m', tree', a);
    }
  }

  class VmMem {
    var memRegions: Region?
    var pml4: array?<Byte>
    var pml4Gpa: nat
    /** The nodes of memRegions in order. */
    ghost var spine: seq<Region>
    /** Every backed guest-physical address and its byte. */
    ghost var mem: Memory
    /** The page tables map_gva has built. */
    ghost var tree: Tree
    /** How the host answers, and everything it was asked. */
    const policy: Policy
    var requests: seq<Request>

    ghost predicate Valid()
      reads this, spine, Buffers(spine)
    {
      WellFormed(spine) && Linked(memRegions, spine) && Holds(spine, mem)
    }

    constructor (policy: Policy)
      ensures Valid() && spine == [] && mem == map[] && pml4 == null && pml4Gpa == 0 && tree == map[]
      ensures this.policy == policy && requests == []
    {
      this.policy, requests := policy, [];
      memRegions, pml4, pml4Gpa := null, null, 0;
      spine, mem, tree := [], map[], map[];
    }

    /** The tables in memory are those of tree, reachable from pml4Gpa. */
    ghost predicate Building()
      reads this
    {
      Radix(mem, tree) && Owned(spine, tree) && pml4Gpa == 0x1000 * tree[ROOT]
    }

    /** No tables yet, or tables that hold just what the mapped pages need. */
    ghost predicate Paging()
      reads this
    {
      if pml4 == null then tree == map[] else Building() && Minimal(tree)
    }

    lemma PagingMeans()
      requires Paging()
      ensures if pml4 == null then tree == map[]
              else Radix(mem, tree) && Minimal(tree) && pml4Gpa == 0x1000 * tree[ROOT]
    {
    }

    /** What the processor finds in the tables is the page map. */
    lemma SeenByProcessor()
      requires Paging() && pml4 != null
      ensures ProcessorSees(mem, pml4Gpa, Pages())
    {
      hide Radix, Minimal, Owned, PagesOf, ProcessorWalk, Expected;
      forall la: nat ensures ProcessorWalk(mem, pml4Gpa, la) == Expected(Pages(), la) {
        ProcessorFindsPages(mem, tree, la);
      }
    }

    /** Virtual page number to physical page number, for all mapped pages. */
    ghost function Pages(): map<nat, nat>
      reads this
    {
      PagesOf(tree)
    }

    /**
      First fit: the lowest address with room, of any alignment, and it is page aligned. The size in
      bytes is a 64-bit product, so the room is for npages modulo 2^52 pages.
     */
    method FindFreeMemRegion(npages: nat) returns (err: int, gpa: nat)
      requires Valid()
      ensures Valid() && err == if npages >= 1 then 0 else -1
      ensures err == 0 ==> LowestFree(spine, gpa, PagesInSize(npages)) && gpa <= 0x10_0000_0000_0000
    {
      hide Wrap, NoRoomBelow, LowestFree, EndBefore, Valid, WellFormed, Linked, Holds;
      if npages < 1 { return -1, 0; }
      var size := Wrap(0x1000 * npages);
      WrapPage(npages);
      ghost var n := PagesInSize(npages);
      var p := memRegions;
      var start := 0;
      ghost var i := 0;
      HeadOfList();
      NothingBelowZero(spine, n);
      while p != null
        invariant 0 <= i <= |spine| && Valid()
        invariant p == if i < |spine| then spine[i] else null
        invariant start == EndBefore(spine, i) && NoRoomBelow(spine, start, n)
        decreases |spine| - i
      {
        NextInList(i);
        InOrder(spine, i);
        var end := p.gpa;
        if end - start >= size { break; }
        GapTooSmall(spine, i, start, n);
        StepEnd(spine, i);
        start := p.gpa + p.npages * 0x1000;
        p := p.next;
        i := i + 1;
      }
      ValidMeans();
      FirstGap(spine, i, n);
      return 0, start;
    }

    lemma HeadOfList()
      requires Valid()
      ensures memRegions == if spine == [] then null else spine[0]
    {
    }

    lemma NextInList(i: nat)
      requires Valid() && i < |spine|
      ensures WellFormed(spine) && spine[i].next == if i + 1 < |spine| then spine[i + 1] else null
    {
    }

    /** One request to the host and its answer. */
    method Ask(r: Request) returns (granted: bool)
      requires Valid()
      modifies this`requests
      ensures Valid()
      ensures requests == old(requests) + [r] && granted == Grants(policy, |old(requests)|, r)
    {
      hide Grants, Proper, Before, InRegions;
      granted := Grants(policy, |requests|, r);
      requests := requests + [r];
    }

    /** Asks the hypervisor to map a host buffer. */
    method HvVmMap(gpa: nat, size: nat) returns (failed: bool)
      requires Valid()
      modifies this`requests
      ensures Valid()
      ensures requests == old(requests) + [GuestRange(gpa, size)]
      ensures failed <==> !Grants(policy, |old(requests)|, GuestRange(gpa, size))
    {
      hide Valid, Grants;
      var granted := Ask(GuestRange(gpa, size));
      failed := !granted;
    }

    /** The first region that ends above base, and the one before it. */
    method FindSlot(base: nat) returns (prev: Region?, p: Region?, ghost k: nat)
      requires Valid()
      ensures Valid()
      ensures k <= |spine|
      ensures p == if k < |spine| then spine[k] else null
      ensures prev == if k > 0 then spine[k - 1] else null
      ensures forall j :: 0 <= j < k ==> spine[j].End() <= base
      ensures k < |spine| ==> spine[k].End() > base
    {
      hide Holds;
      k := 0;
      prev := null;
      p := memRegions;
      while p != null && p.gpa + p.npages * 0x1000 <= base
        invariant 0 <= k <= |spine|
        invariant p == if k < |spine| then spine[k] else null
        invariant prev == if k > 0 then spine[k - 1] else null
        invariant forall j :: 0 <= j < k ==> spine[j].End() <= base
        decreases |spine| - k
      {
        assert p.next == if k + 1 < |spine| then spine[k + 1] else null;
        prev, p := p, p.next;
        k := k + 1;
      }
    }

    /**
      Backs npages pages at gpa with hva. The host is asked exactly when the range is not empty and no
      region overlaps it, and the call fails exactly when it is not asked or refuses; a failure changes
      nothing.
     */
    method MapGpa(gpa: U64, npages: nat, hva: array<Byte>) returns (err: int, ghost k: nat)
      requires Valid() && hva.Length == 0x1000 * npages < 0x1_0000_0000_0000_0000 && hva !in Buffers(spine)
      modifies this`memRegions, this`spine, this`mem, this`requests, spine
      ensures Valid()
      ensures var base := gpa / 0x1000 * 0x1000;
              && requests == old(requests)
                  + (if npages == 0 || Overlaps(old(spine), base, Wrap(base + 0x1000 * npages)) then []
                     else MapRequests(policy, |old(requests)|, base, npages))
              && err == (if npages >= 1 && Free(old(spine), base, npages)
                            && AllGranted(policy, requests, |old(requests)|) then 0 else -1)
      ensures err != 0 ==> spine == old(spine) && mem == old(mem)
      ensures old(Paging()) ==> Paging()
      ensures err == 0 ==>
        && k <= |old(spine)| && |spine| == |old(spine)| + 1 && spine == Insert(old(spine), k, spine[k])
        && fresh(spine[k])
        && spine[k].gpa == gpa / 0x1000 * 0x1000 && spine[k].npages == npages && spine[k].hva == hva
        && Buffers(spine) == old(Buffers(spine)) + {hva}
        && mem == old(mem) + BytesAt(gpa / 0x1000 * 0x1000, hva[..])
        && gpa / 0x1000 * 0x1000 + 0x1000 * npages <= 0x10_0000_0000_0000
        && (forall a :: gpa / 0x1000 * 0x1000 <= a < gpa / 0x1000 * 0x1000 + 0x1000 * npages ==> a !in old(mem))
        && (forall i :: 0 <= i < |spine| ==> spine[i] in old(spine) || fresh(spine[i]))
    {
      hide Valid, WellFormed, Linked, Holds, Insert, BytesAt, Radix, Minimal, Owned, AllGranted, Grants, Overlaps,
        MapRequests, Free, Buffers;
      k := 0;
      if npages < 1 { return -1, 0; }
      var base := gpa / 0x1000 * 0x1000;
      var prev, p, i := FindSlot(base);
      k := i;
      var end := Wrap(base + npages * 0x1000);
      ValidMeans();
      OverlapsAt(spine, k, base, npages);
      if p != null && p.gpa < end { return -1, k; }
      MapAnswers(policy, requests, base, npages);
      var refused := HvVmMap(base, npages * 0x1000);
      if refused { return -1, k; }
      GrantedFits(policy, |old(requests)|, base, 0x1000 * npages);
      WrapSmall(base + 0x1000 * npages);
      Gap(spine, k, base, npages);
      var granted := Ask(ListNode);
      if !granted { return -1, k; }
      AddRegion(prev, p, base, npages, hva, k);
      err := 0;
    }

    lemma ValidMeans()
      requires Valid()
      ensures WellFormed(spine)
    {
    }

    /** The new list node, linked in between prev and p. */
    method AddRegion(prev: Region?, p: Region?, base: nat, npages: nat, hva: array<Byte>, ghost k: nat)
      requires Valid() && k <= |spine| && npages >= 1 && base % 0x1000 == 0
        && base + 0x1000 * npages <= 0x10_0000_0000_0000
      requires hva.Length == 0x1000 * npages && hva !in Buffers(spine) && Free(spine, base, npages)
      requires prev == (if k > 0 then spine[k - 1] else null) && p == (if k < |spine| then spine[k] else null)
      requires forall j :: 0 <= j < k ==> spine[j].End() <= base
      requires k < |spine| ==> base + 0x1000 * npages <= spine[k].gpa
      modifies this`memRegions, this`spine, this`mem, spine
      ensures Valid()
      ensures old(Paging()) ==> Paging()
      ensures |spine| == |old(spine)| + 1 && spine == Insert(old(spine), k, spine[k]) && fresh(spine[k])
      ensures spine[k].gpa == base && spine[k].npages == npages && spine[k].hva == hva
      ensures Buffers(spine) == old(Buffers(spine)) + {hva}
      ensures mem == old(mem) + BytesAt(base, hva[..])
      ensures forall a :: base <= a < base + 0x1000 * npages ==> a !in old(mem)
      ensures forall i :: 0 <= i < |spine| ==> spine[i] in old(spine) || fresh(spine[i])
    {
      hide Holds, Linked, Insert, BytesAt, InRegions, Radix, Minimal, Owned;
      forall a | base <= a < base + 0x1000 * npages ensures a !in mem {
        FreeUnbacked(spine, mem, base, npages, a);
      }
      var r := new Region(base, npages, hva, p);
      InsertWellFormed(spine, k, r);
      LinkIn(prev, r, k);
      InsertAt(old(spine), k, r);
      InsertKeeps(old(spine), k, r);
      if pml4 != null && old(Paging()) {
        NewRegionKeepsTables(old(spine), old(mem), tree, k, r, hva[..]);
      }
    }

    /** Stores r through the pointer that precedes position k: the list head or prev's next. */
    method LinkIn(prev: Region?, r: Region, ghost k: nat)
      requires Valid() && k <= |spine| && r !in spine
      requires prev == if k > 0 then spine[k - 1] else null
      requires r.next == if k < |spine| then spine[k] else null
      requires WellFormed(Insert(spine, k, r))
      modifies this`memRegions, this`spine, this`mem, spine
      ensures Valid()
      ensures spine == Insert(old(spine), k, r) && Buffers(spine) == old(Buffers(spine)) + {r.hva}
      ensures mem == old(mem) + BytesAt(r.gpa, r.hva[..])
    {
      hide Insert, Holds, BytesAt, Buffers, Linked, WellFormed, Proper, Before;
      ghost var rs, m := spine, mem + BytesAt(r.gpa, r.hva[..]);
      InsertBuffers(rs, k, r);
      InsertHolds(rs, k, r, mem);
      SetLink(prev, r, k, m);
      spine := Insert(rs, k, r);
      mem := m;
    }

    /** The one pointer that changes; no buffer does. */
    method SetLink(prev: Region?, r: Region, ghost k: nat, ghost m: Memory)
      requires WellFormed(spine) && Linked(memRegions, spine) && k <= |spine| && r !in spine
      requires prev == if k > 0 then spine[k - 1] else null
      requires r.next == if k < |spine| then spine[k] else null
      requires WellFormed(Insert(spine, k, r)) && Holds(Insert(spine, k, r), m)
      modifies this`memRegions, spine
      ensures Linked(memRegions, Insert(spine, k, r)) && Holds(Insert(spine, k, r), m)
    {
      hide Insert, Proper, Before, InRegions, Buffers;
      InsertAt(spine, k, r);
      if k > 0 { Later(spine, k - 1); }
      ghost var s := Insert(spine, k, r);
      if prev == null { memRegions := r; } else { prev.next := r; }
      forall i | 0 <= i < |s| ensures s[i].next == if i + 1 < |s| then s[i + 1] else null {
        if i < k {
          assert s[i] == spine[i];
        } else if i > k {
          assert s[i] == spine[i - 1];
        }
      }
    }

    /** Page-aligned host memory, or null. Fresh pages are assumed to read as zero. */
    method Valloc(size: nat) returns (hva: array?<Byte>)
      requires Valid()
      modifies this`requests
      ensures Valid()
      ensures hva != null ==> hva !in Buffers(spine)
      ensures requests == old(requests) + [HostMemory(size)]
      ensures hva == null <==> !Grants(policy, |old(requests)|, HostMemory(size))
      ensures hva != null ==> fresh(hva) && hva.Length == size && forall i :: 0 <= i < size ==> hva[i] == 0
    {
      hide Proper, Before, InRegions, Grants;
      var granted := Ask(HostMemory(size));
      if !granted { return null; }
      hva := new Byte[size](_ => 0);
    }

    /**
      Backs npages fresh pages at the lowest address where they fit. It fails exactly for npages == 0
      and when the host refuses; the log of requests says that map_gpa always gets as far as the host,
      so its overlap check never fires.
     */
    method VmMemAlloc(npages: nat) returns (hva: array?<Byte>, gpa: nat, ghost fit: nat, ghost k: nat)
      requires Valid() && npages < 0x10_0000_0000_0000
      modifies this`memRegions, this`spine, this`mem, this`requests, spine
      ensures Valid()
      ensures npages >= 1 ==> LowestFree(old(spine), fit, npages)
      ensures requests == old(requests) + AllocRequests(policy, |old(requests)|, fit, npages)
      ensures hva != null <==> npages >= 1 && AllGranted(policy, requests, |old(requests)|)
      ensures hva == null ==> spine == old(spine) && mem == old(mem)
      ensures old(Paging()) ==> Paging()
      ensures hva != null ==>
        && fresh(hva) && gpa == fit && gpa + 0x1000 * npages <= 0x10_0000_0000_0000
        && k <= |old(spine)| && |spine| == |old(spine)| + 1 && spine == Insert(old(spine), k, spine[k])
        && fresh(spine[k])
        && spine[k].gpa == gpa && spine[k].npages == npages && spine[k].hva == hva
        && Buffers(spine) == old(Buffers(spine)) + {hva}
        && mem == old(mem) + BytesAt(gpa, seq(0x1000 * npages, _ => 0))
        && (forall a :: gpa <= a < gpa + 0x1000 * npages ==> a !in old(mem))
    {
      hide Insert, BytesAt, PagesInSize, Radix, Minimal, Owned, AllGranted, Grants, MapRequests, Overlaps, Free, Valid,
        WellFormed, Linked, Holds;
      k, gpa, fit := 0, 0, 0;
      SizeFits(npages);
      var err, free := FindFreeMemRegion(npages);
      if err != 0 { return null, 0, 0, 0; }
      fit := free;
      NothingAsked(policy, requests);
      GrantedNext(policy, requests, |requests|, HostMemory(0x1000 * npages));
      hva := Valloc(npages * 0x1000);
      if hva == null { return null, 0, fit, 0; }
      ghost var asked := requests;
      NotOverlapped(spine, free, npages);
      err, k := MapGpa(free, npages, hva);
      GrantedSplit(policy, asked, requests, |old(requests)|);
      if err != 0 { return null, 0, fit, k; }
      gpa := free;
      assert hva[..] == seq(0x1000 * npages, _ => 0);
    }

    /** The host pointer behind a guest-physical address. The early exit misses no region. */
    method GpaToHva(gpa: int) returns (p: HostPtr, ghost i: nat)
      requires Valid()
      ensures Valid()
      ensures p == Null <==> gpa !in mem
      ensures p != Null ==>
        && i < |spine| && spine[i].Has(gpa) && p == At(spine[i].hva, gpa - spine[i].gpa) && PointsTo(spine, gpa, p)
        && p.off < p.buf.Length && p.buf in Buffers(spine) && p.buf[p.off] == mem[gpa]
    {
      var r := memRegions;
      i := 0;
      while r != null && r.gpa <= gpa
        invariant 0 <= i <= |spine|
        invariant r == if i < |spine| then spine[i] else null
        invariant forall j :: 0 <= j < i ==> !spine[j].Has(gpa)
        decreases |spine| - i
      {
        assert Proper(spine[i]);
        if gpa < r.gpa + r.npages * 0x1000 {
          assert spine[i].Has(gpa) && spine[i] in spine;
          assert PointsTo(spine, gpa, At(spine[i].hva, gpa - spine[i].gpa));
          return At(r.hva, gpa - r.gpa), i;
        }
        assert r.next == if i + 1 < |spine| then spine[i + 1] else null;
        r := r.next;
        i := i + 1;
      }
      if i < |spine| { Later(spine, i); }
      return Null, i;
    }

    /** Copies the longest backed prefix of the request; the rest of buf keeps its contents. */
    method VmMemRead(gpa: int, buf: array<Byte>, bytes: nat) returns (n: nat)
      requires Valid() && bytes <= buf.Length && bytes < 0x8000_0000 && buf !in Buffers(spine)
      modifies buf
      ensures Valid()
      ensures n == BackedLen(mem, gpa, bytes)
      ensures buf[..] == Slice(mem, gpa, n) + old(buf[..])[n..]
    {
      hide Valid, WellFormed, Linked, Holds, Buffers, PointsTo;
      n := 0;
      while n < bytes
        invariant n <= bytes && Backed(mem, gpa, n) && Valid()
        invariant forall j :: 0 <= j < n ==> buf[j] == mem[gpa + j]
        invariant forall j :: n <= j < buf.Length ==> buf[j] == old(buf[j])
      {
        var p, i := GpaToHva(gpa + n);
        if p == Null { break; }
        LoadByte(buf, n, p.buf[p.off]);
        n := n + 1;
      }
      BackedLenUnique(mem, gpa, bytes, n);
    }

    /** Stores a byte into memory of the host's own. */
    method LoadByte(buf: array<Byte>, n: nat, v: Byte)
      requires Valid() && n < buf.Length && buf !in Buffers(spine)
      modifies buf
      ensures Valid()
      ensures buf[n] == v && forall j :: 0 <= j < buf.Length && j != n ==> buf[j] == old(buf[j])
    {
      hide Proper, Before, InRegions;
      buf[n] := v;
    }

    /** Writes one byte through a host pointer that backs address a. */
    method StoreByte(p: HostPtr, v: Byte, ghost i: nat, ghost a: int)
      requires Valid() && i < |spine| && spine[i].Has(a) && p == At(spine[i].hva, a - spine[i].gpa)
      modifies this`mem, p.buf
      ensures Valid() && a in old(mem) && mem == old(mem)[a := v]
    {
      hide InRegions, Linked;
      assert Proper(spine[i]) && spine[i] in spine;
      Later(spine, i);
      forall j | 0 <= j < |spine| && j != i ensures spine[j].hva != spine[i].hva {
        assert if i < j then Before(spine[i], spine[j]) else Before(spine[j], spine[i]);
      }
      p.buf[p.off] := v;
      mem := mem[a := v];
    }

    /** Stores the longest backed prefix of buf; no other guest byte changes. */
    method VmMemWrite(gpa: int, buf: seq<Byte>) returns (n: nat)
      requires Valid() && |buf| < 0x8000_0000
      modifies this`mem, Buffers(spine)
      ensures Valid()
      ensures n == BackedLen(old(mem), gpa, |buf|)
      ensures mem == Store(old(mem), gpa, buf)
      ensures old(Paging()) && NoTables(tree, gpa, gpa + |buf|) ==> Paging()
    {
      hide Put, InRegions, Proper, Before, Linked, InTables, Radix, Minimal, Owned;
      n := 0;
      PutNothing(mem, gpa);
      assert buf[..0] == [];
      while n < |buf|
        invariant n <= |buf| && Backed(old(mem), gpa, n) && Valid() && spine == old(spine)
        invariant mem == Put(old(mem), gpa, buf[..n])
      {
        var p, i := GpaToHva(gpa + n);
        if p == Null { break; }
        PutNext(old(mem), gpa, buf, n);
        StoreByte(p, buf[n], i, gpa + n);
        n := n + 1;
      }
      BackedLenUnique(old(mem), gpa, |buf|, n);
      if pml4 != null && old(Paging()) && NoTables(tree, gpa, gpa + |buf|) {
        StoreKeepsRadix(old(mem), tree, gpa, buf);
      }
    }

    /** Walks the tables. The entry variable starts uninitialised and keeps its value when a read fails. */
    method GvaToGpa(gva: U64) returns (gpa: nat, ghost stale: seq<Byte>)
      requires Valid()
      ensures Valid()
      ensures |stale| == 8 && gpa == Walk(mem, pml4Gpa, gva, stale)
      ensures pml4 != null && Paging() && Vpn(gva) in Pages() ==> gpa == Translate(Pages(), gva)
    {
      hide FromLe, Frame, Load, Next, DecodeGva, Radix, Minimal, Valid, WellFormed, Linked, Holds;
      var d := DecodeGva(gva);
      var entry := NewEntry();
      stale := entry[..];
      LoadEntry(pml4Gpa + d.pml4Idx, entry);
      gpa := Frame(FromLe(entry[..]));
      NextIs(mem, d.pdptIdx, entry[..], gpa + d.pdptIdx);
      LoadEntry(gpa + d.pdptIdx, entry);
      gpa := Frame(FromLe(entry[..]));
      NextIs(mem, d.pdIdx, entry[..], gpa + d.pdIdx);
      LoadEntry(gpa + d.pdIdx, entry);
      gpa := Frame(FromLe(entry[..]));
      NextIs(mem, d.ptIdx, entry[..], gpa + d.ptIdx);
      LoadEntry(gpa + d.ptIdx, entry);
      gpa := Frame(FromLe(entry[..])) + d.offset;
      if pml4 != null && Paging() && Vpn(gva) in Pages() {
        WalkIsTranslate(mem, tree, gva, stale);
      }
    }

    /** vm_mem_read into an entry variable. */
    method LoadEntry(a: int, entry: array<Byte>)
      requires Valid() && entry.Length == 8 && entry !in Buffers(spine)
      modifies entry
      ensures Valid() && entry[..] == Load(mem, a, old(entry[..]))
    {
      var n := VmMemRead(a, entry, 8);
    }

    /** An uninitialised 64-bit variable. */
    method NewEntry() returns (entry: array<Byte>)
      requires Valid()
      ensures Valid() && fresh(entry) && entry.Length == 8
    {
      entry := new Byte[8];
    }

    /** vm_mem_alloc of one page for a table. */
    method AllocTable() returns (hva: array?<Byte>, gpa: nat)
      requires Valid()
      modifies this`memRegions, this`spine, this`mem, this`requests, spine
      ensures Valid()
      ensures forall b :: b in Buffers(spine) ==> b in old(Buffers(spine)) || fresh(b)
      ensures forall r :: r in old(spine) ==> r in spine
      ensures forall i :: 0 <= i < |spine| ==> spine[i] in old(spine) || fresh(spine[i])
      ensures old(requests) <= requests && Grew(old(spine), old(mem), old(requests), spine, mem, requests)
      ensures |spine| <= |old(spine)| + 1
      ensures hva != null <==> AllGranted(policy, requests, |old(requests)|)
      ensures hva == null ==> spine == old(spine) && mem == old(mem)
      ensures hva != null ==>
        && gpa % 0x1000 == 0 && AddsZeroPage(old(mem), mem, gpa / 0x1000) && gpa / 0x1000 < 0x100_0000_0000
        && HasPage(spine, gpa / 0x1000) && |spine| == |old(spine)| + 1
    {
      hide Insert, BytesAt, AddsZeroPage, Free, AllocRequests, AllGranted, Stacked, PageRequests, WellFormed,
        Linked, Holds;
      ghost var rs, m, log := spine, mem, requests;
      HoldsBacks(rs, m);
      ghost var fit, k;
      hva, gpa, fit, k := VmMemAlloc(1);
      if hva == null {
        StackedSame(rs);
      } else {
        InsertKeeps(rs, k, spine[k]);
        AllocAddsPage(m, gpa);
        StackedInsert(rs, k, spine[k]);
      }
      GrewByAlloc(policy, rs, m, log, fit, mem);
    }

    /** addr is where entry i of table p lies. */
    ghost predicate AtEntry(addr: int, p: Node, i: nat)
      reads this
    {
      Building() && p in tree && 2 <= p.level <= 4 && i < 512 && addr == EntryAddr(tree[p], i)
    }

    /**
      The table that the entry at addr names, allocated when the entry is zero. The code does not check
      the allocation; when the host refuses, the address is garbage.
     */
    method NextTable(addr: U64, ghost p: Node, ghost i: nat) returns (child: U64)
      requires Valid()
      modifies this`memRegions, this`spine, this`mem, this`requests, spine
      ensures Valid()
      ensures forall b :: b in Buffers(spine) ==> b in old(Buffers(spine)) || fresh(b)
      ensures forall r :: r in old(spine) ==> r in spine
      ensures forall i :: 0 <= i < |spine| ==> spine[i] in old(spine) || fresh(spine[i])
      ensures old(requests) <= requests && Grew(old(spine), old(mem), old(requests), spine, mem, requests)
      ensures |spine| <= |old(spine)| + 1
      ensures AllGranted(policy, requests, |old(requests)|) && old(AtEntry(addr, p, i)) ==>
        var t := child / 0x1000;
        && child == 0x1000 * t
        && if Child(p, i) in tree then mem == old(mem) && spine == old(spine) && t == tree[Child(p, i)]
           else
             && AddsZeroPage(old(mem), mem, t) && t < 0x100_0000_0000 && HasPage(spine, t)
             && |spine| == |old(spine)| + 1
    {
      hide AtEntry, AddsZeroPage, HasPage, Free, AllGranted, Grew, Buffers, Valid, WellFormed, Linked, Holds;
      var entry := ReadEntry(addr, p, i);
      if entry == 0 {
        var hva, gpa := AllocTable();
        if hva == null { child :| 0 <= child < 0x1_0000_0000_0000_0000; } else { child := gpa; }
      } else {
        NothingAsked(policy, requests);
        GrewSame(spine, mem, mem, requests);
        child := entry / 0x1000 * 0x1000;
      }
    }

    /** vm_mem_read of an entry: zero exactly when the table has no child there, and its address in bits 12 and up. */
    method ReadEntry(addr: U64, ghost p: Node, ghost i: nat) returns (entry: U64)
      requires Valid()
      ensures Valid()
      ensures AtEntry(addr, p, i) ==>
        if Child(p, i) in tree then entry != 0 && entry / 0x1000 * 0x1000 == 0x1000 * tree[Child(p, i)] else entry == 0
    {
      hide FromLe, Slice, Backed, Radix, Owned, Valid, WellFormed, Linked, Holds;
      var buf := NewEntry();
      var n := VmMemRead(addr, buf, 8);
      EntryFits(buf[..]);
      entry := FromLe(buf[..]);
      if AtEntry(addr, p, i) {
        EntryRead(mem, tree, p, i);
        assert buf[..] == Slice(mem, addr, 8);
        OrPresentWrite(if Child(p, i) in tree then tree[Child(p, i)] else 0);
      }
    }

    ghost method SetTree(tree': Tree)
      requires Valid()
      modifies this`tree
      ensures Valid() && tree == tree'
    {
      tree := tree';
    }

    /** Stores the entry for the page of target at addr: entry i of table page t, when addr is that. */
    method StoreEntry(addr: U64, target: U64, ghost t: nat, ghost i: nat)
      requires Valid()
      modifies this`mem, Buffers(spine)
      ensures Valid() && mem.Keys == old(mem.Keys)
      ensures BackedPage(old(mem), t) && i < 512 && addr == EntryAddr(t, i) && target == target / 0x1000 * 0x1000
              && BackedLen(old(mem), addr, 8) == 8 ==>
        mem == SetEntry(old(mem), t, i, target / 0x1000)
    {
      hide Le, Put, Backed, PresentWrite, Valid, WellFormed, Linked, Holds;
      var entry := Le(PresentWrite(target), 8);
      var n := VmMemWrite(addr, entry);
      assert entry[..8] == entry;
      OrPresentWrite(target / 0x1000);
    }

    /** One level of map_gva: find or allocate the next table and store the entry that names it. */
    method Descend(addr: U64, ghost p: Node, ghost i: nat) returns (child: U64)
      requires Valid()
      modifies this`memRegions, this`spine, this`mem, this`tree, this`requests, spine, Buffers(spine)
      ensures Valid()
      ensures forall b :: b in Buffers(spine) ==> b in old(Buffers(spine)) || fresh(b)
      ensures forall r :: r in old(spine) ==> r in spine
      ensures forall i :: 0 <= i < |spine| ==> spine[i] in old(spine) || fresh(spine[i])
      ensures old(requests) <= requests && Grew(old(spine), old(mem), old(requests), spine, mem, requests)
      ensures |spine| <= |old(spine)| + 1
      ensures AllGranted(policy, requests, |old(requests)|) && old(AtEntry(addr, p, i)) ==>
        && Building()
        && Child(p, i) in tree && child == 0x1000 * tree[Child(p, i)]
        && tree == old(tree)[Child(p, i) := tree[Child(p, i)]]
        && Kept(old(mem), old(tree), mem, tree)
        && |spine| == |old(spine)| + if Child(p, i) in old(tree) then 0 else 1
    {
      hide Le, Backed, Radix, AddsZeroPage, Kept, PresentWrite, SetEntry, AllGranted, Grew, Valid, WellFormed,
        Linked, Holds;
      child := NextTable(addr, p, i);
      ghost var t := child / 0x1000;
      ghost var m1 := mem;
      ghost var good := AllGranted(policy, requests, |old(requests)|) && old(AtEntry(addr, p, i));
      if good {
        StoreChild(old(mem), mem, tree, p, i, t);
        OwnedGrows(old(spine), spine, tree, Child(p, i), t);
      }
      StoreEntry(addr, child, if good then tree[p] else 0, i);
      if good { SetTree(tree[Child(p, i) := t]); }
      GrewStore(old(spine), old(mem), old(requests), spine, m1, requests, mem);
    }

    /** While page v is being mapped: base is its table at the given level, idx the offset of its entry there. */
    ghost predicate OnPath(base: int, idx: int, v: nat, level: nat)
      reads this
    {
      && Building() && MinimalBut(tree, v)
      && 1 <= level <= 4 && NodeAt(v, level) in tree
      && base == 0x1000 * tree[NodeAt(v, level)] && idx == 8 * Index(v, level)
    }

    /** Descend along the path of page v: the pages mapped so far are not disturbed. */
    method DescendFor(base: U64, idx: nat, ghost v: nat, ghost level: nat) returns (child: U64)
      requires Valid()
      modifies this`memRegions, this`spine, this`mem, this`tree, this`requests, spine, Buffers(spine)
      ensures Valid()
      ensures forall b :: b in Buffers(spine) ==> b in old(Buffers(spine)) || fresh(b)
      ensures forall r :: r in old(spine) ==> r in spine
      ensures forall i :: 0 <= i < |spine| ==> spine[i] in old(spine) || fresh(spine[i])
      ensures old(requests) <= requests && Grew(old(spine), old(mem), old(requests), spine, mem, requests)
      ensures |spine| <= |old(spine)| + 1
      ensures AllGranted(policy, requests, |old(requests)|) && level >= 2 && old(OnPath(base, idx, v, level)) ==>
        && OnPath(child, 8 * Index(v, level - 1), v, level - 1)
        && Pages() == old(Pages())
        && Kept(old(mem), old(tree), mem, tree)
        && |spine| == |old(spine)| + |Tables(tree)| - |Tables(old(tree))|
    {
      hide Radix, Owned, Kept, Above, PagesOf, MinimalBut, Tables, AllGranted, Grew, Valid, WellFormed, Linked, Holds,
        NodeAt, Child, Index, Building, OnPath, AtEntry;
      ghost var p := NodeAt(v, level);
      ghost var i := if level >= 1 then Index(v, level) else 0;
      ghost var on := level >= 2 && OnPath(base, idx, v, level);
      if on { EntryOnPath(base, idx, v, level); }
      child := Descend(Wrap(base + idx), p, i);
      if on && AllGranted(policy, requests, |old(requests)|) {
        ghost var c := NodeAt(v, level - 1);
        BelowLevel(v, level);
        TablesGrow(old(tree), c, tree[c]);
        MinimalStep(old(tree), v, level - 1, tree[c]);
        PagesAfterTable(old(tree), c, tree[c]);
        NextOnPath(v, level, child);
      }
    }

    lemma EntryOnPath(base: U64, idx: nat, v: nat, level: nat)
      requires level >= 2 && OnPath(base, idx, v, level)
      ensures AtEntry(Wrap(base + idx), NodeAt(v, level), Index(v, level))
      ensures Child(NodeAt(v, level), Index(v, level)) == NodeAt(v, level - 1)
      ensures MinimalBut(tree, v) && level <= 4
    {
      hide Radix, Owned, Above, MinimalBut;
      PathEntry(mem, tree, v, level);
      WrapSmall(base + idx);
    }

    lemma NextOnPath(v: nat, level: nat, child: nat)
      requires 2 <= level <= 4 && Building() && MinimalBut(tree, v)
      requires NodeAt(v, level - 1) in tree && child == 0x1000 * tree[NodeAt(v, level - 1)]
      ensures OnPath(child, 8 * Index(v, level - 1), v, level - 1)
    {
      hide Building, MinimalBut, Above;
    }

    /** The last store of an iteration: the page's own entry. */
    method StorePage(base: U64, idx: nat, gpa: U64, ghost v: nat)
      requires Valid()
      modifies this`mem, this`tree, Buffers(spine)
      ensures Valid()
      ensures mem.Keys == old(mem.Keys)
      ensures old(OnPath(base, idx, v, 1)) ==>
        && Building() && Minimal(tree)
        && Pages() == old(Pages())[v := gpa / 0x1000]
        && Kept(old(mem), old(tree), mem, tree)
        && Tables(tree) == Tables(old(tree))
    {
      hide Le, Backed, SetEntry, Radix, Kept, PresentWrite, Above, PagesOf, MinimalBut, Minimal, Valid, WellFormed,
        Linked, Holds;
      ghost var t, m := gpa / 0x1000, mem;
      ghost var on := OnPath(base, idx, v, 1);
      if on {
        PathEntry(mem, tree, v, 1);
        WrapSmall(base + idx);
        assert NodeAt(v, 0) == Node(0, v) by { AboveValues(v); }
        StoreLeaf(mem, tree, NodeAt(v, 1), Index(v, 1), t);
        OwnedGrows(spine, spine, tree, NodeAt(v, 0), t);
        MinimalStep(tree, v, 0, t);
        PagesAfterLeaf(tree, v, t);
        TablesSame(tree, NodeAt(v, 0), t);
      }
      StoreEntry(Wrap(base + idx), gpa / 0x1000 * 0x1000,
                 if on then tree[NodeAt(v, 1)] else 0, if on then Index(v, 1) else 0);
      if on { SetTree(tree[NodeAt(v, 0) := t]); }
    }

    lemma RootOfPath(v: nat, idx: nat)
      requires Building() && Minimal(tree) && v < 0x10_0000_0000 && idx == 8 * Index(v, 4)
      ensures OnPath(Wrap(pml4Gpa), idx, v, 4)
    {
      hide Radix, Owned, Above, Minimal, MinimalBut, Index;
      RootOnPath(v);
      RootFits(mem, tree);
      MinimalIsBut(tree, v);
    }

    /** One iteration of map_gva's loop: maps the page of gva to the page of gpa. */
    method MapPage(gva: U64, gpa: U64)
      requires Valid()
      modifies this`memRegions, this`spine, this`mem, this`tree, this`requests, spine, Buffers(spine)
      ensures Valid()
      ensures forall b :: b in Buffers(spine) ==> b in old(Buffers(spine)) || fresh(b)
      ensures forall r :: r in old(spine) ==> r in spine
      ensures forall i :: 0 <= i < |spine| ==> spine[i] in old(spine) || fresh(spine[i])
      ensures old(requests) <= requests && Grew(old(spine), old(mem), old(requests), spine, mem, requests)
      ensures |spine| <= |old(spine)| + 3
      ensures AllGranted(policy, requests, |old(requests)|) && old(Building() && Minimal(tree)) ==>
        && Building() && Minimal(tree)
        && Pages() == old(Pages())[Vpn(gva) := gpa / 0x1000]
        && Kept(old(mem), old(tree), mem, tree)
        && |spine| == |old(spine)| + |Tables(tree)| - |Tables(old(tree))|
    {
      hide Radix, Owned, Kept, Above, PagesOf, MinimalBut, Minimal, Tables, DecodeGva, Vpn, Index, NodeAt, OnPath,
        Building, AllGranted, Grew, Buffers, Valid, WellFormed, Linked, Holds;
      var d := DecodeGva(gva);
      ghost var v := Vpn(gva);
      ghost var rs0, m0, t0, log0 := spine, mem, tree, requests;
      var pdpt, pd, pt;
      DecodeIsIndex(gva);
      assert v < 0x10_0000_0000 by { VpnBound(gva); }
      if Building() && Minimal(tree) { RootOfPath(v, d.pml4Idx); }
      pdpt := DescendFor(Wrap(pml4Gpa), d.pml4Idx, v, 4);
      ghost var rs3, m3, t3, log3 := spine, mem, tree, requests;
      pd := DescendFor(pdpt, d.pdptIdx, v, 3);
      GrewTwice(rs0, m0, log0, rs3, m3, log3, spine, mem, requests);
      ghost var rs2, m2, t2, log2 := spine, mem, tree, requests;
      pt := DescendFor(pd, d.pdIdx, v, 2);
      GrewTwice(rs0, m0, log0, rs2, m2, log2, spine, mem, requests);
      ghost var m1, t1 := mem, tree;
      StorePage(pt, d.ptIdx, gpa, v);
      GrewStore(rs0, m0, log0, spine, m1, requests, mem);
      GrantedSplit(policy, log3, log2, |log0|);
      GrantedSplit(policy, log2, requests, |log0|);
      if AllGranted(policy, requests, |log0|) && old(Building() && Minimal(tree)) {
        KeptTwice(m0, t0, m3, t3, m2, t2);
        KeptTwice(m0, t0, m2, t2, m1, t1);
        KeptTwice(m0, t0, m1, t1, mem, tree);
      }
    }

    method SetRoot(hva: array<Byte>, root: nat)
      requires Valid()
      modifies this`pml4, this`pml4Gpa
      ensures Valid() && pml4 == hva && pml4Gpa == root
    {
      pml4, pml4Gpa := hva, root;
    }

    /** The first block of map_gva: allocate the PML4 if there is none. */
    method EnsureRoot() returns (err: int)
      requires Valid()
      modifies this, spine
      ensures Valid()
      ensures forall b :: b in Buffers(spine) ==> b in old(Buffers(spine)) || fresh(b)
      ensures forall r :: r in old(spine) ==> r in spine
      ensures forall i :: 0 <= i < |spine| ==> spine[i] in old(spine) || fresh(spine[i])
      ensures old(requests) <= requests && Grew(old(spine), old(mem), old(requests), spine, mem, requests)
      ensures |spine| <= |old(spine)| + 1
      ensures err == if AllGranted(policy, requests, |old(requests)|) then 0 else -1
      ensures err != 0 ==>
        old(pml4) == null && pml4 == null && spine == old(spine) && mem == old(mem) && tree == old(tree)
      ensures err == 0 ==> pml4 != null
      ensures old(pml4) != null ==> pml4 == old(pml4) && pml4Gpa == old(pml4Gpa)
      ensures err == 0 && old(Paging()) ==>
        && Building() && Minimal(tree)
        && Pages() == old(Pages())
        && Kept(old(mem), old(tree), mem, tree)
        && |spine| == |old(spine)| + |Tables(tree)| - |Tables(old(tree))|
    {
      hide Radix, Kept, PagesOf, Minimal, Tables, AddsZeroPage, AllGranted, Grew, Valid, WellFormed, Linked, Holds;
      if pml4 == null {
        var hva, root := AllocTable();
        if hva == null { return -1; }
        SetRoot(hva, root);
        if old(Paging()) {
          FirstTable(old(mem), mem, root / 0x1000);
          SetTree(map[ROOT := root / 0x1000]);
          assert HasPage(spine, root / 0x1000);
        }
      } else {
        NothingAsked(policy, requests);
        GrewSame(spine, mem, mem, requests);
        KeptSame(mem, tree);
      }
      err := 0;
    }

    /**
      Maps npages pages from gva to npages pages from gpa. When the host grants every request, the
      page map is overridden page by page, and one region is allocated per new table and nothing else.
     */
    method MapGva(gva: U64, npages: nat, gpa: U64) returns (err: int)
      requires Valid()
      modifies this, spine, Buffers(spine)
      ensures Valid()
      ensures forall b :: b in Buffers(spine) ==> b in old(Buffers(spine)) || fresh(b)
      ensures forall r :: r in old(spine) ==> r in spine
      ensures forall i :: 0 <= i < |spine| ==> spine[i] in old(spine) || fresh(spine[i])
      ensures old(requests) <= requests && Grew(old(spine), old(mem), old(requests), spine, mem, requests)
      ensures |spine| <= |old(spine)| + 1 + 3 * npages
      ensures err == 0 || err == -1
      ensures err != 0 ==>
        && old(pml4) == null && pml4 == null && spine == old(spine) && mem == old(mem) && tree == old(tree)
        && !AllGranted(policy, requests, |old(requests)|)
      ensures err == 0 ==> pml4 != null
      ensures old(pml4) != null ==> pml4 == old(pml4) && pml4Gpa == old(pml4Gpa)
      ensures AllGranted(policy, requests, |old(requests)|) && old(Paging()) ==>
        && Paging() && ProcessorSees(mem, pml4Gpa, Pages())
        && Pages() == MapRun(old(Pages()), gva / 0x1000, gpa / 0x1000, npages)
        && Kept(old(mem), old(tree), mem, tree)
        && |spine| == |old(spine)| + |Tables(tree)| - |Tables(old(tree))|
    {
      hide Radix, Kept, PagesOf, Minimal, Tables, Owned, Wrap, Vpn, VirtAt, PhysAt, Building, AllGranted, Grew,
        Buffers, ProcessorSees, Valid, WellFormed, Linked, Holds;
      ghost var v, p := gva / 0x1000, gpa / 0x1000;
      ghost var rs0, m0, log0 := spine, mem, requests;
      var a, b := gva / 0x1000 * 0x1000, gpa / 0x1000 * 0x1000;
      WrapSmall(a);
      WrapSmall(b);
      err := EnsureRoot();
      if err != 0 { return -1; }
      ghost var i := 0;
      var left := npages;
      while left > 0
        invariant Valid() && pml4 != null
        invariant old(pml4) != null ==> pml4 == old(pml4) && pml4Gpa == old(pml4Gpa)
        invariant forall b :: b in Buffers(spine) ==> b in old(Buffers(spine)) || fresh(b)
        invariant forall r :: r in old(spine) ==> r in spine
        invariant forall i :: 0 <= i < |spine| ==> spine[i] in old(spine) || fresh(spine[i])
        invariant log0 <= requests && Grew(rs0, m0, log0, spine, mem, requests)
        invariant |spine| <= |rs0| + 1 + 3 * i
        invariant i + left == npages && left >= 0
        invariant a == Wrap(0x1000 * (v + i)) && b == Wrap(0x1000 * (p + i))
        invariant AllGranted(policy, requests, |log0|) && old(Paging()) ==>
          && Building() && Minimal(tree)
          && Pages() == MapRun(old(Pages()), v, p, i)
          && Kept(old(mem), old(tree), mem, tree)
          && |spine| == |old(spine)| + |Tables(tree)| - |Tables(old(tree))|
      {
        ghost var rs1, m1, t1, log1 := spine, mem, tree, requests;
        MapPage(a, b);
        GrewTwice(rs0, m0, log0, rs1, m1, log1, spine, mem, requests);
        GrantedSplit(policy, log1, requests, |log0|);
        if AllGranted(policy, requests, |log0|) && old(Paging()) {
          KeptTwice(old(mem), old(tree), m1, t1, mem, tree);
          RunStep(v, i);
          RunStep(p, i);
        }
        WrapNext(v + i);
        WrapNext(p + i);
        a := Wrap(a + 0x1000);
        b := Wrap(b + 0x1000);
        left := left - 1;
        i := i + 1;
      }
      if AllGranted(policy, requests, |log0|) && old(Paging()) { SeenByProcessor(); }
      err := 0;
    }

    /**
      Backs and identity-maps numPages pages at address 0. It asks for one allocation of all pages and
      then only for single pages. When the host grants every request, it succeeds exactly when there
      are pages to map and they are free.
     */
    method VmMemInit(numPages: nat) returns (err: int, ghost fit: nat)
      requires Valid() && numPages < 0x1_0000_0000
      modifies this, spine, Buffers(spine)
      ensures Valid()
      ensures forall b :: b in Buffers(spine) ==> b in old(Buffers(spine)) || fresh(b)
      ensures forall i :: 0 <= i < |spine| ==> spine[i] in old(spine) || fresh(spine[i])
      ensures numPages >= 1 ==> LowestFree(old(spine), fit, numPages)
      ensures PagesAfter(old(requests) + AllocRequests(policy, |old(requests)|, fit, numPages), requests, mem)
      ensures err == 0 || err == -1
      ensures err == 0 ==>
        && numPages >= 1 && Free(old(spine), 0, numPages) && pml4 != null
        && HasRegion(spine, 0, numPages) && |spine| <= |old(spine)| + 2 + 3 * numPages
      ensures AllGranted(policy, requests, |old(requests)|) ==>
        (err == 0 <==> numPages >= 1 && Free(old(spine), 0, numPages))
      ensures err == 0 && AllGranted(policy, requests, |old(requests)|) && old(Paging()) ==>
        && Paging()
        && Pages() == MapRun(old(Pages()), 0, 0, numPages)
        && NoTables(tree, 0, 0x1000 * numPages)
        && (forall a :: 0 <= a < 0x1000 * numPages ==> a in mem && mem[a] == 0)
        && |spine| == |old(spine)| + 1 + |Tables(tree)| - |Tables(old(tree))|
      ensures err == 0 && old(spine) == [] ==> Packed(spine) && Top(spine) == 0x1000 * (numPages + |spine| - 1)
    {
      hide Valid, WellFormed, Linked, Holds, Radix, Kept, NoTables, PagesOf, Minimal, Owned, Insert, AllGranted, Grew,
        PagesAfter, AllocRequests, Tables, Packed, LowestFree, Free, BytesAt, Buffers;
      ghost var log0 := requests;
      var hva, gpa;
      ghost var k;
      hva, gpa, fit, k := VmMemAlloc(numPages);
      PagesAfterSame(requests, mem);
      if numPages >= 1 { LowestIsZero(old(spine), fit, numPages); }
      if hva == null { return -1, fit; }
      InsertKeeps(old(spine), k, spine[k]);
      if gpa != 0 { return -1, fit; }
      assert forall i :: 0 <= i < |spine| ==> spine[i] in old(spine) || fresh(spine[i]);
      ghost var rs, m, log := spine, mem, requests;
      ZerosAt(old(mem), 0x1000 * numPages);
      err := MapGva(0, numPages, gpa);
      PagesAfterGrew(rs, m, log, spine, mem, requests);
      GrantedSplit(policy, log, requests, |log0|);
      if err != 0 { return -1, fit; }
      assert rs[k] in spine;
      if old(spine) == [] { FirstRegion(old(spine), k, rs[k], rs, m, log, spine, mem, requests); }
      if AllGranted(policy, requests, |log0|) && old(Paging()) {
        ZerosKept(old(mem), old(tree), old(pml4) != null, m, mem, tree, 0x1000 * numPages);
      }
      err := 0;
    }

    /**
      Whether every byte of a guest-virtual range has a host address: the walk of each byte is looked up,
      up to the first that is not backed. For mapped pages that is their translation.
     */
    method VmMemVerify(gva: U64, nbytes: nat) returns (err: int, ghost stales: seq<seq<Byte>>)
      requires Valid()
      ensures Valid()
      ensures err == 0 || err == -1
      ensures Scanned(mem, pml4Gpa, gva, nbytes, stales, err == 0)
    {
      hide Proper, Before, Linked, InRegions, Walk, GvaPlus, Paging, Pages, Translate, Vpn;
      var a: int := gva;
      stales := [];
      GvaPlusZero(gva);
      var left := nbytes;
      while left > 0
        invariant |stales| + left == nbytes && a == GvaPlus(gva, |stales|)
        invariant forall j :: 0 <= j < |stales| ==>
          |stales[j]| == 8 && Walk(mem, pml4Gpa, GvaPlus(gva, j), stales[j]) in mem
      {
        var gpa, stale := GvaToGpa(a);
        var p, k := GpaToHva(gpa);
        GvaPlusNext(gva, |stales|);
        stales := stales + [stale];
        if p == Null { return -1, stales; }
        a := Wrap(a + 1);
        left := left - 1;
      }
      return 0, stales;
    }
  }
}
