/** Bytes, machine words and byte-addressed guest memory as plain values. */
module Words {
  type Byte = x: int | 0 <= x < 0x100
  type U64 = x: int | 0 <= x < 0x1_0000_0000_0000_0000

  /** Guest-physical memory: the backed addresses and the byte behind each. */
  type Memory = map<int, Byte>

  /** Unsigned 64-bit arithmetic keeps the low 64 bits. */
  function Wrap(x: int): U64 {
    x % 0x1_0000_0000_0000_0000
  }

  /** A 32-bit int that receives x. */
  function ToInt32(x: int): (r: int)
    ensures -0x8000_0000 <= r < 0x8000_0000 && (x - r) % 0x1_0000_0000 == 0
  {
    var y := x % 0x1_0000_0000;
    if y < 0x8000_0000 then y else y - 0x1_0000_0000
  }

  function Max(a: int, b: int): int {
    if a < b then b else a
  }

  // ---- little-endian encoding ----

  /** The n low bytes of x, least significant first. */
  function Le(x: nat, n: nat): (s: seq<Byte>)
    ensures |s| == n
  {
    if n == 0 then [] else [x % 256] + Le(x / 256, n - 1)
  }

  function FromLe(s: seq<Byte>): nat {
    if s == [] then 0 else s[0] + 256 * FromLe(s[1..])
  }

  function Pow256(n: nat): nat {
    if n == 0 then 1 else 256 * Pow256(n - 1)
  }

  lemma {:induction false} Pow256Values()
    ensures Pow256(2) == 0x1_0000
    ensures Pow256(4) == 0x1_0000_0000
    ensures Pow256(8) == 0x1_0000_0000_0000_0000
  {
    assert Pow256(4) == 256 * Pow256(3) && Pow256(3) == 256 * Pow256(2);
    assert Pow256(8) == 256 * Pow256(7) && Pow256(7) == 256 * Pow256(6);
    assert Pow256(6) == 256 * Pow256(5) && Pow256(5) == 256 * Pow256(4);
  }

  /** Encoding truncates to n bytes; decoding recovers exactly what was kept. */
  lemma {:induction false} FromLeLe(x: nat, n: nat)
    requires x < Pow256(n)
    ensures FromLe(Le(x, n)) == x
  {
    if n > 0 {
      FromLeLe(x / 256, n - 1);
      assert Le(x, n)[1..] == Le(x / 256, n - 1);
    }
  }

  lemma {:induction false} LeFromLe(s: seq<Byte>)
    ensures FromLe(s) < Pow256(|s|)
    ensures Le(FromLe(s), |s|) == s
  {
    if s != [] {
      LeFromLe(s[1..]);
      LowByte(s[0], FromLe(s[1..]));
      assert s == [s[0]] + s[1..];
    }
  }

  lemma LowByte(b: Byte, rest: nat)
    ensures (b + 256 * rest) % 256 == b && (b + 256 * rest) / 256 == rest
  {
  }

  // ---- memory ----

  predicate Backed(m: Memory, a: int, n: nat) {
    forall i :: a <= i < a + n ==> i in m
  }

  /** The n bytes at a. */
  function Slice(m: Memory, a: int, n: nat): (s: seq<Byte>)
    requires Backed(m, a, n)
    ensures |s| == n
  {
    seq(n, i requires 0 <= i < n => m[a + i])
  }

  /** Memory after storing s at a. */
  function Put(m: Memory, a: int, s: seq<Byte>): (r: Memory)
    requires Backed(m, a, |s|)
    ensures r.Keys == m.Keys
  {
    map x | x in m :: if a <= x < a + |s| then s[x - a] else m[x]
  }

  /** The length of the longest backed prefix of the n bytes at a. */
  function BackedLen(m: Memory, a: int, n: nat): (k: nat)
    ensures k <= n && Backed(m, a, k)
    ensures k < n ==> a + k !in m
    decreases n
  {
    if n == 0 || a !in m then 0 else 1 + BackedLen(m, a + 1, n - 1)
  }

  lemma {:induction false} BackedLenUnique(m: Memory, a: int, n: nat, k: nat)
    requires k <= n && Backed(m, a, k)
    requires k < n ==> a + k !in m
    ensures k == BackedLen(m, a, n)
    decreases n
  {
    if n > 0 && a in m {
      BackedLenUnique(m, a + 1, n - 1, k - 1);
    }
  }

  lemma SliceOfPut(m: Memory, a: int, s: seq<Byte>, b: int, n: nat)
    requires Backed(m, a, |s|) && Backed(m, b, n)
    requires b + n <= a || a + |s| <= b
    ensures Slice(Put(m, a, s), b, n) == Slice(m, b, n)
  {
  }

  lemma SliceOfPutSame(m: Memory, a: int, s: seq<Byte>)
    requires Backed(m, a, |s|)
    ensures Slice(Put(m, a, s), a, |s|) == s
  {
  }

  /** Storing one more byte. */
  lemma PutNext(m: Memory, a: int, s: seq<Byte>, n: nat)
    requires n < |s| && Backed(m, a, n + 1)
    ensures Put(m, a, s[..n])[a + n := s[n]] == Put(m, a, s[..n + 1])
  {
  }

  lemma PutNothing(m: Memory, a: int)
    ensures Put(m, a, []) == m
  {
  }

  /** Memory after storing the longest backed prefix of s at a. */
  function Store(m: Memory, a: int, s: seq<Byte>): (r: Memory)
    ensures r.Keys == m.Keys
  {
    Put(m, a, s[..BackedLen(m, a, |s|)])
  }

  /** Memory after a sequence of stores. */
  function StoreAll(m: Memory, writes: seq<(int, seq<Byte>)>): (r: Memory)
    ensures r.Keys == m.Keys
  {
    if writes == [] then m
    else
      var w := writes[|writes| - 1];
      Store(StoreAll(m, writes[..|writes| - 1]), w.0, w.1)
  }

  /** The bytes at a are s. */
  predicate HoldsBytes(m: Memory, a: int, s: seq<Byte>) {
    Backed(m, a, |s|) && Slice(m, a, |s|) == s
  }

  /** What was stored is read back, provided all of it is backed. */
  lemma {:induction false} StoredIsHeld(m: Memory, a: int, s: seq<Byte>)
    requires Backed(m, a, |s|)
    ensures Store(m, a, s) == Put(m, a, s)
    ensures HoldsBytes(Store(m, a, s), a, s)
    ensures BackedLen(m, a, |s|) == |s|
  {
    BackedLenUnique(m, a, |s|, |s|);
    assert s[..|s|] == s;
    SliceOfPutSame(m, a, s);
  }

  /** Bytes elsewhere are not affected. */
  lemma {:induction false} StoreKeeps(m: Memory, a: int, s: seq<Byte>, b: int, t: seq<Byte>)
    requires HoldsBytes(m, b, t)
    requires b + |t| <= a || a + |s| <= b
    ensures HoldsBytes(Store(m, a, s), b, t)
  {
    SliceOfPut(m, a, s[..BackedLen(m, a, |s|)], b, |t|);
  }

  lemma {:induction false} HeldSame(m: Memory, m': Memory, a: int, s: seq<Byte>)
    requires HoldsBytes(m, a, s)
    requires forall i :: a <= i < a + |s| ==> i in m' && m'[i] == m[i]
    ensures HoldsBytes(m', a, s)
  {
    assert Slice(m', a, |s|) == Slice(m, a, |s|);
  }

  lemma {:induction false} HeldJoin(m: Memory, a: int, s: seq<Byte>, t: seq<Byte>)
    ensures HoldsBytes(m, a, s) && HoldsBytes(m, a + |s|, t) <==> HoldsBytes(m, a, s + t)
  {
    if HoldsBytes(m, a, s) && HoldsBytes(m, a + |s|, t) {
      forall i | a <= i < a + |s + t| ensures i in m {
      }
      assert Slice(m, a, |s + t|) == Slice(m, a, |s|) + Slice(m, a + |s|, |t|);
    }
    if HoldsBytes(m, a, s + t) {
      assert Slice(m, a, |s|) == Slice(m, a, |s + t|)[..|s|] == (s + t)[..|s|];
      assert Slice(m, a + |s|, |t|) == Slice(m, a, |s + t|)[|s|..] == (s + t)[|s|..];
    }
  }
}
