/** When the page map is the identity, and for which image sizes start-up makes it one. */
module Identity {
  import opened PageTable
  import opened PageMap

  ghost predicate IsIdentity(pages: map<nat, nat>) {
    forall v :: v in pages ==> v < 0x10_0000_0000 && pages[v] == v
  }

  lemma {:induction false} IdentityRun(pages: map<nat, nat>, p: nat, n: nat)
    requires IsIdentity(pages) && p + n <= 0x10_0000_0000
    ensures IsIdentity(MapRun(pages, p, p, n))
    ensures forall v :: v in MapRun(pages, p, p, n) <==> v in pages || p <= v < p + n
    decreases n
  {
    hide VirtAt, PhysAt;
    if n > 0 {
      IdentityRun(pages, p, n - 1);
      SmallPage(p, n - 1);
    }
  }

  lemma SmallPage(p: nat, i: nat)
    requires p + i < 0x10_0000_0000
    ensures VirtAt(p, i) == p + i && PhysAt(p, i) == p + i
  {
  }

  lemma {:induction false} TranslateIdentity(pages: map<nat, nat>, x: nat)
    requires IsIdentity(pages) && x < 0x1_0000_0000_0000 && x / 0x1000 in pages
    ensures Vpn(x) == x / 0x1000 && Translate(pages, x) == x
  {
    PageOf(x);
    hide Vpn;
  }

  lemma PageOf(x: nat)
    requires x < 0x1_0000_0000_0000
    ensures Vpn(x) == x / 0x1000
    ensures x / 0x1000 % 0x100_0000_0000 == x / 0x1000
  {
  }

  lemma SmallMod(t: nat)
    requires t < 0x100_0000_0000
    ensures t % 0x100_0000_0000 == t
  {
  }

  // ---- start-up: n pages at 0, then k pages at 4 GB ----

  function StartupPages(n: nat, k: nat): map<nat, nat> {
    MapRun(MapRun(map[], 0, 0, n), 0x10_0000, 0x10_0000, k)
  }

  lemma {:induction false} MappedInRun(pages: map<nat, nat>, v: nat, p: nat, n: nat, u: nat)
    ensures u in pages ==> u in MapRun(pages, v, p, n)
    ensures (exists i :: 0 <= i < n && VirtAt(v, i) == u) ==> u in MapRun(pages, v, p, n)
    decreases n
  {
    hide VirtAt, PhysAt;
    if n > 0 { MappedInRun(pages, v, p, n - 1, u); }
  }

  /** Every address of the two ranges is mapped, even by an image that wraps around. */
  lemma {:induction false} StartupMaps(n: nat, k: nat, x: nat)
    requires n <= 0x10_0000_0000
    requires x < 0x1000 * n || 0x1_0000_0000 <= x < 0x1_0000_0000 + 0x1000 * k
    ensures Vpn(x) in StartupPages(n, k)
  {
    var u, q := Vpn(x), x / 0x1000;
    hide MapRun;
    MappedInRun(map[], 0, 0, n, u);
    MappedInRun(MapRun(map[], 0, 0, n), 0x10_0000, 0x10_0000, k, u);
    if x < 0x1000 * n {
      assert VirtAt(0, q) == u;
    } else {
      assert VirtAt(0x10_0000, q - 0x10_0000) == u;
    }
  }

  /** Every address of the two ranges is mapped, and to itself. */
  ghost predicate StartupIdentity(n: nat, k: nat) {
    forall x :: 0 <= x < 0x1000 * n || 0x1_0000_0000 <= x < 0x1_0000_0000 + 0x1000 * k ==>
      Vpn(x) in StartupPages(n, k) && Translate(StartupPages(n, k), x) == x
  }

  /** The pages that start-up maps, when the image does not wrap around. */
  lemma {:induction false} StartupKeys(n: nat, k: nat, v: nat)
    requires n <= 0x10_0000_0000 && 0x10_0000 + k <= 0x10_0000_0000
    ensures v in StartupPages(n, k) <==> v < n || 0x10_0000 <= v < 0x10_0000 + k
    ensures IsIdentity(StartupPages(n, k))
  {
    IdentityRun(map[], 0, n);
    IdentityRun(MapRun(map[], 0, 0, n), 0x10_0000, k);
  }

  lemma {:induction false} IdentityHolds(n: nat, k: nat)
    requires n <= 0x10_0000_0000 && 0x10_0000 + k <= 0x10_0000_0000
    ensures StartupIdentity(n, k)
    ensures IsIdentity(StartupPages(n, k))
  {
    IdentityRun(map[], 0, n);
    IdentityRun(MapRun(map[], 0, 0, n), 0x10_0000, k);
    forall x | 0 <= x < 0x1000 * n || 0x1_0000_0000 <= x < 0x1_0000_0000 + 0x1000 * k
      ensures Vpn(x) in StartupPages(n, k) && Translate(StartupPages(n, k), x) == x
    {
      PageOf(x);
      TranslateIdentity(StartupPages(n, k), x);
    }
  }

  /** An image that reaches past 2^48 is wrapped around onto page 0. */
  lemma {:induction false} WrapsOntoZero(n: nat, k: nat)
    requires 0x10_0000_0000 < 0x10_0000 + k <= 0x100_0000_0000
    ensures 0 in StartupPages(n, k) && 0x10_0000_0000 <= StartupPages(n, k)[0] < 0x100_0000_0000
    decreases k
  {
    hide PhysAt, VirtAt;
    LastPage(k - 1);
    if 0x10_0000_0000 < 0x10_0000 + (k - 1) {
      WrapsOntoZero(n, k - 1);
    }
  }

  lemma LastPage(i: nat)
    requires 0x10_0000_0000 <= 0x10_0000 + i < 0x100_0000_0000
    ensures PhysAt(0x10_0000, i) == 0x10_0000 + i
    ensures 0x10_0000 + i == 0x10_0000_0000 ==> VirtAt(0x10_0000, i) == 0
  {
  }

  /**
    For images that fit below 2^52, as a successful map_gpa guarantees, start-up is the identity
    exactly when the image ends at or below 2^48: beyond, address 0 is mapped elsewhere.
   */
  lemma {:induction false} StartupIdentityIff(n: nat, k: nat)
    requires 1 <= n <= 0x10_0000_0000 && 0x10_0000 + k <= 0x100_0000_0000
    ensures StartupIdentity(n, k) <==> 0x10_0000 + k <= 0x10_0000_0000
  {
    if 0x10_0000 + k <= 0x10_0000_0000 {
      IdentityHolds(n, k);
    } else {
      WrapsOntoZero(n, k);
      NotZero(StartupPages(n, k));
      assert Vpn(0) == 0;
      assert Translate(StartupPages(n, k), 0) != 0;
    }
  }

  lemma NotZero(pages: map<nat, nat>)
    requires 0 in pages && 0 < pages[0] < 0x100_0000_0000
    ensures Vpn(0) == 0 && Translate(pages, 0) != 0
  {
  }
}
