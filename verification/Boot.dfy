/** The first instructions of the guest: popping what start-up pushed. */
module Boot {
  import opened Words
  import opened Hvexec
  import PageTable

  /** The 64-bit value at a. */
  function Load64(m: Memory, a: int): nat
    requires Backed(m, a, 8)
  {
    FromLe(Slice(m, a, 8))
  }

  /** A guest in 32-bit flat mode without paging: it addresses guest-physical memory. */
  class Guest {
    var mem: Memory
    var esp: nat
    var eax: nat
    var cr3: nat

    constructor (mem: Memory, esp: nat)
      ensures this.mem == mem && this.esp == esp
    {
      this.mem, this.esp, eax, cr3 := mem, esp, 0, 0;
    }

    method Pop()
      requires Backed(mem, esp, 4)
      modifies this`eax, this`esp
      ensures eax == FromLe(Slice(mem, old(esp), 4)) && eax < 0x1_0000_0000 && esp == old(esp) + 4
    {
      FourBytes(Slice(mem, esp, 4));
      eax := FromLe(Slice(mem, esp, 4));
      esp := esp + 4;
    }

    method StoreEax(cell: nat)
      requires Backed(mem, cell, 4)
      modifies this`mem
      ensures mem == Put(old(mem), cell, Le(eax, 4))
    {
      mem := Put(mem, cell, Le(eax, 4));
    }

    /** Pops one word from the stack into a cell: a copy of four bytes. */
    method PopTo(cell: nat)
      requires Backed(mem, esp, 4) && Backed(mem, cell, 4)
      modifies this`eax, this`esp, this`mem
      ensures mem == Put(old(mem), cell, Slice(old(mem), old(esp), 4)) && esp == old(esp) + 4
    {
      hide FromLe, Le, Put, Slice;
      LeFromLe(Slice(mem, esp, 4));
      Pop();
      StoreEax(cell);
    }

    method Push()
      requires esp >= 4 && Backed(mem, esp - 4, 4)
      modifies this`esp, this`mem
      ensures esp == old(esp) - 4 && mem == Put(old(mem), esp, Le(eax, 4))
    {
      esp := esp - 4;
      mem := Put(mem, esp, Le(eax, 4));
    }

    /**
      The pops into app_entry, app_argc and app_argv (six consecutive cells), the pop into CR3, and
      the push that puts the last word back.
     */
    method HandOff(cells: nat)
      requires Backed(mem, esp, 28) && Backed(mem, cells, 24)
      requires cells + 24 <= esp || esp + 28 <= cells
      modifies this
      ensures mem == Put(old(mem), cells, Slice(old(mem), old(esp), 24))
      ensures cr3 == FromLe(Slice(old(mem), old(esp) + 24, 4))
      ensures esp == old(esp) + 24
    {
      hide FromLe, Le, Put, Slice, Copied, Backed;
      ghost var m, s := mem, esp;
      NothingCopied(m, cells, s);
      PopNext(cells, 0, m, s);
      PopNext(cells, 1, m, s);
      PopNext(cells, 2, m, s);
      PopNext(cells, 3, m, s);
      PopNext(cells, 4, m, s);
      PopNext(cells, 5, m, s);
      LastWord(m, cells, s);
      AllCopied(m, cells, s, mem);
      Pop();
      cr3 := eax;
      Push();
    }

    /** One pop and store: word k of the stack goes to word k of the cells. */
    method PopNext(cells: nat, k: nat, ghost m: Memory, ghost s: nat)
      requires k < 6 && Backed(m, s, 28) && Backed(m, cells, 24) && (cells + 24 <= s || s + 28 <= cells)
      requires Copied(m, cells, s, k, mem) && esp == s + 4 * k
      modifies this`eax, this`esp, this`mem
      ensures Copied(m, cells, s, k + 1, mem) && esp == s + 4 * (k + 1)
    {
      hide FromLe, Le, Put, Slice, Backed;
      CopyWord(m, cells, s, k);
      PopTo(cells + 4 * k);
    }
  }

  /** m' is m with the first k words of the stack copied to the cells. */
  ghost predicate Copied(m: Memory, cells: nat, s: nat, k: nat, m': Memory) {
    Backed(m, s, 4 * k) && Backed(m, cells, 4 * k) && m' == Put(m, cells, Slice(m, s, 4 * k))
  }

  lemma NothingCopied(m: Memory, cells: nat, s: nat)
    requires Backed(m, cells, 24)
    ensures Copied(m, cells, s, 0, m)
  {
    CopyNothing(m, cells, s);
  }

  lemma AllCopied(m: Memory, cells: nat, s: nat, m': Memory)
    requires Copied(m, cells, s, 6, m')
    ensures Backed(m, s, 24) && Backed(m, cells, 24) && m' == Put(m, cells, Slice(m, s, 24))
  {
  }

  lemma FourBytes(s: seq<Byte>)
    requires |s| == 4
    ensures FromLe(s) < 0x1_0000_0000
  {
    hide FromLe, Le;
    LeFromLe(s);
    Pow256Values();
  }

  lemma CopyNothing(m: Memory, cells: nat, s: nat)
    requires Backed(m, cells, 24)
    ensures Backed(m, s, 0) && Backed(m, cells, 0) && Put(m, cells, Slice(m, s, 0)) == m
  {
  }

  lemma BackedPart(m: Memory, a: nat, n: nat, b: nat, k: nat)
    requires Backed(m, a, n) && a <= b && b + k <= a + n
    ensures Backed(m, b, k)
  {
  }

  lemma PutBacks(m: Memory, a: nat, s: seq<Byte>, b: nat, k: nat)
    requires Backed(m, a, |s|) && Backed(m, b, k)
    ensures Backed(Put(m, a, s), b, k)
  {
    assert Put(m, a, s).Keys == m.Keys;
    assert forall x :: x in m ==> x in Put(m, a, s).Keys;
  }

  lemma SliceJoin(m: Memory, a: nat, n: nat, k: nat)
    requires Backed(m, a, n) && Backed(m, a + n, k) && Backed(m, a, n + k)
    ensures Slice(m, a, n) + Slice(m, a + n, k) == Slice(m, a, n + k)
  {
  }

  /** Popping word k of the stack at s into cell k extends the copy by four bytes. */
  lemma {:induction false} CopyWord(m: Memory, cells: nat, s: nat, k: nat)
    requires k < 6 && Backed(m, s, 28) && Backed(m, cells, 24)
    requires cells + 24 <= s || s + 28 <= cells
    ensures Backed(m, s, 4 * k) && Backed(m, s, 4 * (k + 1)) && Backed(m, cells, 4 * k) && Backed(m, cells, 4 * (k + 1))
    ensures var m1 := Put(m, cells, Slice(m, s, 4 * k));
            && Backed(m1, s + 4 * k, 4) && Backed(m1, cells + 4 * k, 4)
            && Put(m1, cells + 4 * k, Slice(m1, s + 4 * k, 4)) == Put(m, cells, Slice(m, s, 4 * (k + 1)))
  {
    hide Put, Slice, Backed;
    BackedPart(m, s, 28, s, 4 * k);
    BackedPart(m, s, 28, s, 4 * (k + 1));
    BackedPart(m, s, 28, s + 4 * k, 4);
    BackedPart(m, cells, 24, cells, 4 * k);
    BackedPart(m, cells, 24, cells, 4 * (k + 1));
    BackedPart(m, cells, 24, cells + 4 * k, 4);
    PutBacks(m, cells, Slice(m, s, 4 * k), s + 4 * k, 4);
    PutBacks(m, cells, Slice(m, s, 4 * k), cells + 4 * k, 4);
    SliceOfPut(m, cells, Slice(m, s, 4 * k), s + 4 * k, 4);
    SliceJoin(m, s, 4 * k, 4);
    PutTwice(m, cells, Slice(m, s, 4 * k), Slice(m, s + 4 * k, 4));
  }

  lemma PutTwice(m: Memory, a: int, s: seq<Byte>, t: seq<Byte>)
    requires Backed(m, a, |s|) && Backed(m, a + |s|, |t|) && Backed(m, a, |s + t|)
    ensures Backed(Put(m, a, s), a + |s|, |t|)
    ensures Put(Put(m, a, s), a + |s|, t) == Put(m, a, s + t)
  {
    assert Put(m, a, s).Keys == m.Keys;
  }

  lemma {:induction false} LastWord(m: Memory, cells: nat, s: nat)
    requires Backed(m, s, 28) && Backed(m, cells, 24)
    requires cells + 24 <= s || s + 28 <= cells
    ensures Backed(m, s, 24) && Backed(m, s + 24, 4)
    ensures var m1 := Put(m, cells, Slice(m, s, 24));
            && Backed(m1, s + 24, 4) && Slice(m1, s + 24, 4) == Slice(m, s + 24, 4)
            && Put(m1, s + 24, Le(FromLe(Slice(m1, s + 24, 4)), 4)) == m1
  {
    hide FromLe, Le;
    var m1 := Put(m, cells, Slice(m, s, 24));
    assert m1.Keys == m.Keys;
    assert forall x :: x in m ==> x in m1.Keys;
    LeFromLe(Slice(m1, s + 24, 4));
  }

  // ---- what the kernel finds in its cells ----

  lemma {:induction false} LoadHeld(m: Memory, a: int, x: U64)
    requires HoldsBytes(m, a, Le(x, 8))
    ensures Load64(m, a) == x
  {
    hide FromLe, Le;
    Pow256Values();
    FromLeLe(x, 8);
  }

  /** The low four bytes of an address are the address below 4 GB. */
  lemma {:induction false} LowHalf(x: U64)
    ensures FromLe(Le(x, 8)[..4]) == x % 0x1_0000_0000
  {
    FourLow(x);
    Pow256Values();
    FromLeLe(x % 0x1_0000_0000, 4);
  }

  lemma FourLow(x: nat)
    ensures Le(x, 8)[..4] == Le(x % 0x1_0000_0000, 4)
  {
    PrefixLe(x, 8, 4);
    LeMod(x, 4);
    Pow256Values();
  }

  lemma {:induction false} PrefixLe(x: nat, n: nat, k: nat)
    requires k <= n
    ensures Le(x, n)[..k] == Le(x, k)
  {
    if k > 0 {
      PrefixLe(x / 256, n - 1, k - 1);
      assert Le(x, n)[..k] == [x % 256] + Le(x / 256, n - 1)[..k - 1];
    }
  }

  lemma {:induction false} LeMod(x: nat, k: nat)
    ensures Pow256(k) > 0 && Le(x % Pow256(k), k) == Le(x, k)
  {
    Pow256Positive(k);
    if k > 0 {
      Pow256Positive(k - 1);
      var p := Pow256(k - 1);
      Shift256(x, p);
      LeMod(x / 256, k - 1);
    }
  }

  lemma {:induction false} Pow256Positive(k: nat)
    ensures Pow256(k) > 0
  {
    if k > 0 { Pow256Positive(k - 1); }
  }

  lemma Shift256(x: nat, p: nat)
    requires p > 0
    ensures x % (256 * p) % 256 == x % 256 && x % (256 * p) / 256 == x / 256 % p
  {
    var j, y := x / (256 * p), x % (256 * p);
    assert x == 256 * (p * j) + y;
    assert x / 256 == p * j + y / 256;
    PageTable.Remainder(x / 256, p, j, y / 256);
  }

  /**
    The hand-off undoes the pushes: the three 64-bit cells hold the entry, argc and argv, and CR3 is
    the PML4 address exactly when that lies below 4 GB.
   */
  lemma {:induction false} HandOffRecovers(m: Memory, m': Memory, esp: nat, cells: nat, entry: U64, argc: U64,
        pml4Gpa: U64)
    requires HoldsBytes(m, esp, BootStack(entry, argc, pml4Gpa)) && Backed(m, cells, 24) && Backed(m, esp, 24)
    requires cells + 24 <= esp || esp + 28 <= cells
    requires m' == Put(m, cells, Slice(m, esp, 24))
    ensures Backed(m', cells, 8) && Load64(m', cells) == entry
    ensures Backed(m', cells + 8, 8) && Load64(m', cells + 8) == argc
    ensures Backed(m', cells + 16, 8) && Load64(m', cells + 16) == 0x7100
    ensures Backed(m, esp + 24, 4) && (FromLe(Slice(m, esp + 24, 4)) == pml4Gpa <==> pml4Gpa < 0x1_0000_0000)
  {
    hide FromLe, Le, Slice, Put, Backed, HoldsBytes;
    var e, c, v, p := Le(entry, 8), Le(argc, 8), Le(CONF_ARGV_ADDR, 8), Le(pml4Gpa, 8)[..4];
    assert BootStack(entry, argc, pml4Gpa) == (e + (c + v)) + p;
    HeldJoin(m, esp, e + (c + v), p);
    CellsHeld(m, m', esp, cells, e + (c + v), p);
    HeldJoin(m', cells, e, c + v);
    HeldJoin(m', cells + 8, c, v);
    LoadHeld(m', cells, entry);
    LoadHeld(m', cells + 8, argc);
    LoadHeld(m', cells + 16, CONF_ARGV_ADDR);
    LowHalf(pml4Gpa);
  }

  lemma CellsHeld(m: Memory, m': Memory, esp: nat, cells: nat, s: seq<Byte>, p: seq<Byte>)
    requires |s| == 24 && |p| == 4 && HoldsBytes(m, esp, s) && HoldsBytes(m, esp + 24, p) && Backed(m, cells, 24)
    requires m' == Put(m, cells, Slice(m, esp, 24))
    ensures HoldsBytes(m', cells, s) && Backed(m, esp + 24, 4) && Slice(m, esp + 24, 4) == p
    ensures forall a, t: seq<Byte> {:trigger HoldsBytes(m', a, t)} :: HoldsBytes(m', a, t) ==> Backed(m', a, |t|)
  {
    SliceOfPutSame(m, cells, s);
  }
}
