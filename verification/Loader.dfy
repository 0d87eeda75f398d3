/** Loading the kernel and the application into guest memory. */
module Loader {
  import opened Words
  import opened PageTable
  import opened PageMap
  import opened VmMem
  import MachO

  const IMAGE_GPA: int := 0x1_0000_0000

  /** The pages a file of n bytes takes. */
  function PageCount(n: nat): nat {
    n / 0x1000 + if n % 0x1000 > 0 then 1 else 0
  }

  lemma PageCountCovers(n: nat)
    ensures n <= 0x1000 * PageCount(n) < n + 0x1000
  {
  }

  /** The file as mmap presents it: zeros up to the end of its last page. */
  function Padded(image: seq<Byte>): (s: seq<Byte>)
    ensures |s| == 0x1000 * PageCount(|image|)
    ensures |image| <= |s| && s[..|image|] == image && forall i :: |image| <= i < |s| ==> s[i] == 0
  {
    PageCountCovers(|image|);
    image + seq(0x1000 * PageCount(|image|) - |image|, _ => 0)
  }

  /** Private mapping of a whole file; null stands for the failure value of mmap. */
  method Mmap(vm: VmMem, image: seq<Byte>) returns (hva: array?<Byte>)
    requires vm.Valid()
    modifies vm`requests
    ensures vm.Valid()
    ensures vm.requests == old(vm.requests) + [FileMapping(|image|)]
    ensures hva == null <==> !Grants(vm.policy, |old(vm.requests)|, FileMapping(|image|))
    ensures hva != null ==> fresh(hva) && hva[..] == Padded(image)
  {
    hide Padded, Grants, Proper, Before, InRegions;
    var granted := vm.Ask(FileMapping(|image|));
    if !granted { return null; }
    var s := Padded(image);
    hva := new Byte[|s|](i requires 0 <= i < |s| => s[i]);
  }

  /** Copies a whole file to gpa; it fails exactly when some byte of the range is not backed. */
  method LoadRaw(vm: VmMem, file: seq<Byte>, gpa: U64) returns (err: int)
    requires vm.Valid() && |file| < 0x8000_0000
    modifies vm`mem, Buffers(vm.spine)
    ensures vm.Valid() && (err == 0 || err == -1)
    ensures vm.mem == Store(old(vm.mem), gpa, file)
    ensures err == 0 <==> Backed(old(vm.mem), gpa, |file|)
    ensures old(vm.Paging()) && NoTables(vm.tree, gpa, gpa + |file|) ==> vm.Paging()
  {
    hide Store, InTables, VmMem.Paging, VmMem.Valid, WellFormed, Linked, Holds;
    if Backed(vm.mem, gpa, |file|) { BackedLenUnique(vm.mem, gpa, |file|, |file|); }
    var n := vm.VmMemWrite(gpa, file);
    if n != |file| { return -1; }
    err := 0;
  }

  /** What is known of the guest once an image is mapped at 4 GB. */
  ghost predicate ImageMapped(m: Memory, tree: Tree, pages: map<nat, nat>, image: seq<Byte>, m': Memory, tree': Tree) {
    && PagesOf(tree') == MapRun(pages, 0x10_0000, 0x10_0000, PageCount(|image|))
    && (forall i :: IMAGE_GPA <= i < IMAGE_GPA + |Padded(image)| ==> i !in m && !InTables(tree', i))
    && HoldsBytes(m', IMAGE_GPA, Padded(image))
    && Kept(m, tree, m', tree')
    && IMAGE_GPA + |Padded(image)| <= 0x10_0000_0000_0000
  }

  lemma ImageStays(m: Memory, tree: Tree, started: bool, s: seq<Byte>, m': Memory, tree': Tree)
    requires if started then Radix(m, tree) else tree == map[]
    requires forall a :: IMAGE_GPA <= a < IMAGE_GPA + |s| ==> a !in m
    requires Kept(m + BytesAt(IMAGE_GPA, s), tree, m', tree')
    ensures Kept(m, tree, m', tree') && HoldsBytes(m', IMAGE_GPA, s)
    ensures forall a :: IMAGE_GPA <= a < IMAGE_GPA + |s| ==> !InTables(tree', a)
  {
    hide Radix, InTables;
    var m1 := m + BytesAt(IMAGE_GPA, s);
    forall a | IMAGE_GPA <= a < IMAGE_GPA + |s| ensures a in m' && m'[a] == s[a - IMAGE_GPA] && !InTables(tree', a) {
      NotInTables(m, tree, started, a);
      assert a in m1;
    }
    assert forall a :: a in m ==> a in m1 && m1[a] == m[a];
  }

  /** What mapping an image of npages pages over the regions rs asks first, from the host's n-th request on. */
  ghost function ImageRequests(policy: Policy, n: nat, rs: seq<Region>, npages: nat): seq<Request> {
    if npages == 0 || Overlaps(rs, IMAGE_GPA, Wrap(IMAGE_GPA + 0x1000 * npages)) then []
    else MapRequests(policy, n, IMAGE_GPA, npages)
  }

  /** The same for loading a file of size bytes. */
  ghost function FileRequests(policy: Policy, n: nat, rs: seq<Region>, size: nat): seq<Request> {
    [FileMapping(size)]
    + if Grants(policy, n, FileMapping(size)) then ImageRequests(policy, n + 1, rs, PageCount(size)) else []
  }

  lemma FileThenImage(policy: Policy, log: seq<Request>, rs: seq<Region>, size: nat)
    ensures var f := FileMapping(size);
            log + FileRequests(policy, |log|, rs, size) ==
            if Grants(policy, |log|, f) then (log + [f]) + ImageRequests(policy, |log + [f]|, rs, PageCount(size))
            else log + [f]
  {
    hide ImageRequests, Grants;
  }

  /** Nothing is in the way of an image whose place is free. */
  lemma NothingInTheWay(policy: Policy, n: nat, rs: seq<Region>, size: nat)
    requires Free(rs, IMAGE_GPA, PageCount(size))
    ensures FileRequests(policy, n, rs, size) == FileRequests(policy, n, [], size)
  {
    NotOverlapped(rs, IMAGE_GPA, PageCount(size));
  }

  /** Backs n bytes of hva at 4 GB and identity-maps them. */
  method MapImage(vm: VmMem, npages: nat, hva: array<Byte>, image: seq<Byte>) returns (err: int)
    requires vm.Valid() && hva !in Buffers(vm.spine)
    requires hva[..] == Padded(image) && npages == PageCount(|image|) && |Padded(image)| < 0x1_0000_0000_0000_0000
    modifies vm, vm.spine, Buffers(vm.spine), hva
    ensures vm.Valid() && (err == 0 || err == -1)
    ensures forall b :: b in Buffers(vm.spine) ==> b in old(Buffers(vm.spine)) || b == hva || fresh(b)
    ensures forall i :: 0 <= i < |vm.spine| ==> vm.spine[i] in old(vm.spine) || fresh(vm.spine[i])
    ensures old(vm.pml4) != null ==> vm.pml4 == old(vm.pml4) && vm.pml4Gpa == old(vm.pml4Gpa)
    ensures var log0 := old(vm.requests);
            PagesAfter(log0 + ImageRequests(vm.policy, |log0|, old(vm.spine), npages), vm.requests, vm.mem)
    ensures old(vm.mem.Keys) <= vm.mem.Keys
    ensures forall r :: r in old(vm.spine) ==> r in vm.spine
    ensures err == 0 ==>
      && |image| > 0 && Free(old(vm.spine), IMAGE_GPA, PageCount(|image|)) && vm.pml4 != null
      && HasRegion(vm.spine, IMAGE_GPA, PageCount(|image|))
    ensures AllGranted(vm.policy, vm.requests, |old(vm.requests)|) ==>
      (err == 0 <==> |image| > 0 && Free(old(vm.spine), IMAGE_GPA, PageCount(|image|)))
    ensures err == 0 && AllGranted(vm.policy, vm.requests, |old(vm.requests)|) && old(vm.Paging()) ==>
      && vm.Paging()
      && ImageMapped(old(vm.mem), old(vm.tree), old(vm.Pages()), image, vm.mem, vm.tree)
  {
    hide Padded, PageCount, InTables, Kept, MapRun, PagesOf, BytesAt, HoldsBytes, Insert, Free, Radix, Minimal,
      Overlaps, MapRequests, AllGranted, Grew, PagesAfter, VmMem.Paging, VmMem.Valid, WellFormed, Linked, Holds;
    if vm.Paging() { vm.PagingMeans(); }
    PageCountCovers(|image|);
    ghost var k;
    err, k := vm.MapGpa(IMAGE_GPA, npages, hva);
    PagesAfterSame(vm.requests, vm.mem);
    if err != 0 { return -1; }
    InsertKeeps(old(vm.spine), k, vm.spine[k]);
    ghost var rs, m, log := vm.spine, vm.mem, vm.requests;
    err := vm.MapGva(IMAGE_GPA, npages, IMAGE_GPA);
    PagesAfterGrew(rs, m, log, vm.spine, vm.mem, vm.requests);
    GrantedSplit(vm.policy, log, vm.requests, |old(vm.requests)|);
    if err != 0 { return -1; }
    assert rs[k] in vm.spine;
    if AllGranted(vm.policy, vm.requests, |old(vm.requests)|) && old(vm.Paging()) {
      ImageStays(old(vm.mem), old(vm.tree), old(vm.pml4) != null, Padded(image), vm.mem, vm.tree);
    }
    err := 0;
  }

  /**
    Backs the image at 4 GB with the file itself and identity-maps it. entry is the file's entry
    point there; a file without one leaves it as it was. When the host grants every request, it
    succeeds exactly when the file is not empty and its place is free.
   */
  method LoadMachObj(vm: VmMem, image: seq<Byte>, entry0: U64) returns (err: int, entry: U64)
    requires vm.Valid() && |image| < 0x8000_0000_0000_0000
    requires !MachO.ShouldSwapBytes(MachO.Word(image, 0)) || MachO.IsFat(MachO.Word(image, 0))
    modifies vm, vm.spine, Buffers(vm.spine)
    ensures vm.Valid() && (err == 0 || err == -1)
    ensures forall b :: b in Buffers(vm.spine) ==> b in old(Buffers(vm.spine)) || fresh(b)
    ensures forall i :: 0 <= i < |vm.spine| ==> vm.spine[i] in old(vm.spine) || fresh(vm.spine[i])
    ensures old(vm.pml4) != null ==> vm.pml4 == old(vm.pml4) && vm.pml4Gpa == old(vm.pml4Gpa)
    ensures match MachO.Entry(image)
            case None => entry == entry0
            case Some(e) => entry == Wrap(e.entryoff + IMAGE_GPA)
    ensures var log0 := old(vm.requests);
            PagesAfter(log0 + FileRequests(vm.policy, |log0|, old(vm.spine), |image|), vm.requests, vm.mem)
    ensures old(vm.mem.Keys) <= vm.mem.Keys
    ensures forall r :: r in old(vm.spine) ==> r in vm.spine
    ensures err == 0 ==>
      && |image| > 0 && Free(old(vm.spine), IMAGE_GPA, PageCount(|image|)) && vm.pml4 != null
      && HasRegion(vm.spine, IMAGE_GPA, PageCount(|image|))
    ensures AllGranted(vm.policy, vm.requests, |old(vm.requests)|) ==>
      (err == 0 <==> |image| > 0 && Free(old(vm.spine), IMAGE_GPA, PageCount(|image|)))
    ensures err == 0 && AllGranted(vm.policy, vm.requests, |old(vm.requests)|) && old(vm.Paging()) ==>
      && vm.Paging()
      && ImageMapped(old(vm.mem), old(vm.tree), old(vm.Pages()), image, vm.mem, vm.tree)
  {
    hide Padded, PageCount, Wrap, ImageMapped, Free, AllGranted, Grants, PagesAfter, ImageRequests, FileRequests,
      Radix, Minimal, Owned, VmMem.Valid, WellFormed, Linked, Holds, MachO.Entry;
    entry := entry0;
    var file := new MachO.ObjFile(image);
    var found := file.ReadEntryPointCmd();
    if found.Some? { entry := Wrap(found.value.entryoff + IMAGE_GPA); }
    NothingAsked(vm.policy, vm.requests);
    GrantedNext(vm.policy, vm.requests, |vm.requests|, FileMapping(|image|));
    FileThenImage(vm.policy, vm.requests, vm.spine, |image|);
    var hva := Mmap(vm, image);
    PagesAfterSame(vm.requests, vm.mem);
    if hva == null { return -1, entry; }
    ghost var log := vm.requests;
    PageCountCovers(|image|);
    err := MapImage(vm, PageCount(|image|), hva, image);
    PagesAfterPrefix(log, ImageRequests(vm.policy, |log|, old(vm.spine), PageCount(|image|)), vm.requests, vm.mem);
    GrantedSplit(vm.policy, log, vm.requests, |old(vm.requests)|);
  }
}
