/** The pi spigot: passes over a mixed-radix remainder array that emit base-10000 digit groups. */
module Pidigits {
  import opened Words
  import Stdlib

  type Int32 = Stdlib.Int32

  // ---- what the array stands for ----

  /** Weight of remainder i: 1, 1/3, 2/15, ... */
  function W(i: nat): real
    requires i >= 1
  {
    if i == 1 then 1.0 else W(i - 1) * (i - 1) as real / (2 * i - 1) as real
  }

  /** The value of remainders lo to hi - 1. */
  function Sum(r: seq<int>, lo: nat, hi: nat): real
    requires 1 <= lo && hi <= |r|
    decreases hi - lo
  {
    if lo >= hi then 0.0 else r[lo] as real * W(lo) + Sum(r, lo + 1, hi)
  }

  lemma WeightStep(i: nat)
    requires i >= 2
    ensures (2 * i - 1) as real * W(i) == (i - 1) as real * W(i - 1)
  {
  }

  lemma {:induction false} SumSame(r: seq<int>, s: seq<int>, lo: nat, hi: nat)
    requires 1 <= lo && hi <= |r| && hi <= |s|
    requires forall j :: lo <= j < hi ==> r[j] == s[j]
    ensures Sum(r, lo, hi) == Sum(s, lo, hi)
    decreases hi - lo
  {
    if lo < hi { SumSame(r, s, lo + 1, hi); }
  }

  lemma {:induction false} SumSplit(r: seq<int>, lo: nat, mid: nat, hi: nat)
    requires 1 <= lo <= mid <= hi <= |r|
    ensures Sum(r, lo, hi) == Sum(r, lo, mid) + Sum(r, mid, hi)
    decreases mid - lo
  {
    if lo < mid { SumSplit(r, lo + 1, mid, hi); }
  }

  /** One division of a pass: nothing is lost between the digit, the remainder and the carry. */
  lemma OneDivision(i: nat, x: int, d: int, q: int, rem: int, w: real, below: real)
    requires i >= 1 && d + x * 10000 == (2 * i - 1) * q + rem
    requires (2 * i - 1) as real * w == below
    ensures 10000.0 * (x as real * w) + d as real * w == q as real * below + rem as real * w
  {
    var b := (2 * i - 1) as real;
    assert (d + x * 10000) as real == b * q as real + rem as real;
    assert (d + x * 10000) as real == d as real + x as real * 10000.0;
    assert (b * q as real) * w == q as real * (b * w);
  }

  // ---- bounds ----

  /** The array before the first pass: 2000 everywhere below the top, which is not initialised. */
  predicate Fresh(r: seq<int>, k: nat) {
    1 <= k < |r| && (forall i :: 1 <= i < k ==> r[i] == 2000) && 0 <= r[k] <= 214748
  }

  /** The array after a pass: remainders. */
  predicate Reduced(r: seq<int>, k: nat) {
    1 <= k < |r| && k <= 53687 && forall i :: 1 <= i <= k ==> 0 <= r[i] <= 2 * i - 2
  }

  /** Bound on d, j divisions into the first pass. */
  function FirstBound(j: nat): int {
    if j == 0 then 2147480000 else 20000000 + FirstBound(j - 1) / 2
  }

  lemma {:induction false} FirstBoundFits(j: nat)
    ensures 40000000 <= FirstBound(j) <= 2147480000
    ensures j >= 6 ==> FirstBound(j) <= 100009999
  {
    if j > 0 { FirstBoundFits(j - 1); }
    if j == 6 {
      assert FirstBound(5) == 20000000 + FirstBound(4) / 2 && FirstBound(4) == 20000000 + FirstBound(3) / 2;
      assert FirstBound(3) == 20000000 + FirstBound(2) / 2 && FirstBound(2) == 20000000 + FirstBound(1) / 2;
    }
  }

  /** d just after the add at index i. */
  predicate AfterAdd(first: bool, k: nat, i: nat, d: int) {
    0 <= d && i <= k && if first then d <= FirstBound(k - i) else d < 20000 * (2 * i - 1)
  }

  /** d just before the add at index i. */
  predicate BeforeAdd(first: bool, k: nat, i: nat, d: int) {
    0 <= d && i <= k && if i == k then d == 0 else if first then d <= FirstBound(k - i - 1) / 2 else d <= 19999 * i
  }

  lemma AddBound(first: bool, r: seq<int>, k: nat, i: nat, d: int)
    requires if first then Fresh(r, k) else Reduced(r, k)
    requires 1 <= i <= k && BeforeAdd(first, k, i, d)
    ensures AfterAdd(first, k, i, d + r[i] * 10000) && d + r[i] * 10000 < 0x8000_0000
  {
    if first { FirstBoundFits(k - i); }
  }

  lemma DivideBound(first: bool, k: nat, i: nat, d: int, q: int, rem: int)
    requires 2 <= i <= k && AfterAdd(first, k, i, d) && (first || k <= 53687)
    requires d == (2 * i - 1) * q + rem && 0 <= rem < 2 * i - 1
    ensures 0 <= q && BeforeAdd(first, k, i - 1, q * (i - 1)) && q * (i - 1) < 0x8000_0000
  {
    if first {
      FirstDivide(i, FirstBound(k - i), d, q, rem);
      FirstBoundFits(k - i);
    } else {
      LaterDivide(i, d, q, rem);
    }
  }

  /** In the first pass d is halved. */
  lemma FirstDivide(i: nat, bound: int, d: int, q: int, rem: int)
    requires 2 <= i && 0 <= d <= bound
    requires d == (2 * i - 1) * q + rem && 0 <= rem < 2 * i - 1
    ensures 0 <= q && 0 <= q * (i - 1) <= bound / 2
  {
    QuotientRange(2 * i - 1, q, rem, d);
    Doubled(i, q);
    NotNegative(q, i - 1);
  }

  /** In later passes the quotient is below 20000. */
  lemma LaterDivide(i: nat, d: int, q: int, rem: int)
    requires 2 <= i && 0 <= d < 20000 * (2 * i - 1)
    requires d == (2 * i - 1) * q + rem && 0 <= rem < 2 * i - 1
    ensures 0 <= q && 0 <= q * (i - 1) <= 19999 * (i - 1)
  {
    QuotientRange(2 * i - 1, q, rem, d);
    QuotientLimit(2 * i - 1, q, 20000);
    Scaled(q, 19999, i - 1);
    NotNegative(q, i - 1);
  }

  lemma Doubled(i: int, q: int)
    ensures (2 * i - 1) * q == 2 * (q * (i - 1)) + q
  {
  }

  lemma NotNegative(q: nat, n: nat)
    ensures q * n >= 0
  {
  }

  lemma QuotientRange(b: int, q: int, rem: int, d: int)
    requires b > 0 && d >= 0 && d == b * q + rem && rem < b
    ensures q >= 0
  {
    QuotientLimit(b, -q, 1);
  }

  lemma QuotientLimit(b: int, q: int, n: int)
    requires b > 0 && b * q < n * b
    ensures q < n
  {
    if q >= n { Scaled(n, q, b); }
  }

  lemma Scaled(x: int, y: int, n: nat)
    requires x <= y
    ensures x * n <= y * n
  {
  }

  // ---- one pass ----

  /** d / b and d % b, for the non-negative d of a pass. */
  function Div(d: int, b: int): (q: int)
    requires b > 0
  {
    d / b
  }

  function Mod(d: int, b: int): (rem: int)
    requires b > 0
    ensures 0 <= rem < b
  {
    d % b
  }

  lemma DivMod(d: int, b: int)
    requires b > 0
    ensures d == b * Div(d, b) + Mod(d, b)
    ensures 0 <= d ==> 0 <= Div(d, b) <= d
  {
    if 0 <= d {
      QuotientRange(b, Div(d, b), Mod(d, b), d);
      Scaled(1, b, Div(d, b));
    }
  }

  /** Below i nothing has happened yet; above it, 10000 times the old value is the new value and the carry d. */
  predicate Carried(was: seq<int>, r: seq<int>, k: nat, i: nat, d: int)
    requires 1 <= i <= k < |was| && |r| == |was|
  {
    10000.0 * Sum(was, i + 1, k + 1) == d as real * W(i) + Sum(r, i + 1, k + 1)
  }

  /**
    The inner loop: every remainder is multiplied by 10000 and reduced, and d receives what carries
    out at the bottom. Nothing is lost, and no intermediate value leaves the 32-bit range.
   */
  method Pass(r: array<int>, k: nat, ghost first: bool) returns (d: Int32)
    requires if first then Fresh(r[..], k) else Reduced(r[..], k)
    modifies r
    ensures 10000.0 * Sum(old(r[..]), 1, k + 1) == d as real + Sum(r[..], 1, k + 1)
    ensures forall j :: 1 <= j <= k ==> 0 <= r[j] <= 2 * j - 2
    ensures forall j :: 0 <= j < r.Length && !(1 <= j <= k) ==> r[j] == old(r[j])
    ensures d >= 0 && AfterAdd(first, k, 1, d)
  {
    hide Sum, W, Div, Mod, Carried, AfterAdd, BeforeAdd, Fresh, Reduced;
    d := 0;
    ghost var was := r[..];
    var i := k;
    StartPass(first, k, was);
    while true
      invariant 1 <= i <= k < r.Length
      invariant BeforeAdd(first, k, i, d) && Carried(was, r[..], k, i, d)
      invariant forall j :: 0 <= j <= i ==> r[j] == was[j]
      invariant forall j :: i < j <= k ==> 0 <= r[j] <= 2 * j - 2
      invariant forall j :: k < j < r.Length ==> r[j] == was[j]
      decreases i
    {
      Division(first, was, r[..], k, i, d);
      var x: Int32 := r[i] * 10000;
      d := d + x;
      var b: int := 2 * i - 1;
      ghost var sum, before := d, r[..];
      r[i] := Mod(d, b);
      d := Div(d, b);
      assert r[..] == before[i := Mod(sum, b)];
      i := i - 1;
      if i == 0 { break; }
      d := d * i;
    }
  }

  lemma StartPass(first: bool, k: nat, was: seq<int>)
    requires if first then Fresh(was, k) else Reduced(was, k)
    ensures 1 <= k < |was| && BeforeAdd(first, k, k, 0) && Carried(was, was, k, k, 0)
  {
  }

  lemma Combine(xw: real, sum: real, dw: real, rest: real, carry: real, rw: real)
    requires 10000.0 * sum == dw + rest && 10000.0 * xw + dw == carry + rw
    ensures 10000.0 * (xw + sum) == carry + (rw + rest)
  {
  }

  /** The conservation law carried from index i + 1 to index i, with what is carried on below. */
  lemma {:induction false} DivisionLaw(was: seq<int>, r: seq<int>, k: nat, i: nat, d: int, q: int, below: real)
    requires 1 <= i <= k < |was| && |r| == |was|
    requires 10000.0 * Sum(was, i + 1, k + 1) == d as real * W(i) + Sum(r, i + 1, k + 1)
    requires d + was[i] * 10000 == (2 * i - 1) * q + r[i] && (2 * i - 1) as real * W(i) == below
    ensures 10000.0 * Sum(was, i, k + 1) == q as real * below + Sum(r, i, k + 1)
  {
    hide W;
    OneDivision(i, was[i], d, q, r[i], W(i), below);
    Combine(was[i] as real * W(i), Sum(was, i + 1, k + 1), d as real * W(i), Sum(r, i + 1, k + 1),
            q as real * below, r[i] as real * W(i));
  }

  /** What division i hands on, as the loop's next d. */
  lemma {:induction false} HandOn(was: seq<int>, r: seq<int>, k: nat, i: nat, d: int, q: int)
    requires 1 <= i <= k < |was| && |r| == |was|
    requires Carried(was, r, k, i, d)
    requires d + was[i] * 10000 == (2 * i - 1) * q + r[i]
    ensures i == 1 ==> 10000.0 * Sum(was, 1, k + 1) == q as real + Sum(r, 1, k + 1)
    ensures i > 1 ==> Carried(was, r, k, i - 1, q * (i - 1))
  {
    hide Sum, W;
    if i > 1 {
      WeightStep(i);
      DivisionLaw(was, r, k, i, d, q, (i - 1) as real * W(i - 1));
      Regroup(q, i - 1, W(i - 1));
    } else {
      FirstWeight();
      DivisionLaw(was, r, k, 1, d, q, 1.0);
    }
  }

  lemma FirstWeight()
    ensures W(1) == 1.0 && 1 as real * W(1) == 1.0
  {
  }

  /** One round of the inner loop: bounds of every intermediate value, and the law for the next round. */
  lemma {:induction false} Division(first: bool, was: seq<int>, r: seq<int>, k: nat, i: nat, d: int)
    requires if first then Fresh(was, k) else Reduced(was, k)
    requires 1 <= i <= k < |was| && |r| == |was| && r[i] == was[i]
    requires BeforeAdd(first, k, i, d) && Carried(was, r, k, i, d)
    ensures var b, sum := 2 * i - 1, d + r[i] * 10000;
            var q, r' := Div(sum, b), r[i := Mod(sum, b)];
            && 0 <= r[i] * 10000 < 0x8000_0000 && 0 <= sum < 0x8000_0000 && 0 <= q <= sum
            && (if i == 1 then AfterAdd(first, k, 1, q) && 10000.0 * Sum(was, 1, k + 1) == q as real + Sum(r', 1, k + 1)
                else
                  && 0 <= q * (i - 1) < 0x8000_0000 && BeforeAdd(first, k, i - 1, q * (i - 1))
                  && Carried(was, r', k, i - 1, q * (i - 1)))
  {
    hide Sum, W, Div, Mod;
    var b, sum := 2 * i - 1, d + r[i] * 10000;
    var q, r' := Div(sum, b), r[i := Mod(sum, b)];
    AddBound(first, was, k, i, d);
    assert 0 <= r[i] && 0 <= d;
    DivMod(sum, b);
    assert Carried(was, r', k, i, d) by {
      SumSame(r, r', i + 1, k + 1);
    }
    HandOn(was, r', k, i, d, q);
    if i > 1 {
      DivideBound(first, k, i, sum, q, Mod(sum, b));
    }
  }

  lemma Regroup(q: int, n: int, w: real)
    ensures q as real * (n as real * w) == (q * n) as real * w
  {
    assert (q * n) as real == q as real * n as real;
  }

  // ---- the whole run ----

  /** Base-10000 groups read as one number. */
  function Number(s: seq<int>): int {
    if s == [] then 0 else Number(s[..|s| - 1]) * 10000 + s[|s| - 1]
  }

  function Pow10000(m: nat): real {
    if m == 0 then 1.0 else 10000.0 * Pow10000(m - 1)
  }

  /** The array after start-up: r[n] is not initialised and holds top. */
  function Start(n: nat, top: int): seq<int> {
    seq(n, _ => 2000) + [top]
  }

  lemma StartIs(n: nat, top: int, i: nat)
    requires i <= n
    ensures |Start(n, top)| == n + 1 && Start(n, top)[i] == if i < n then 2000 else top
  {
  }

  /** The length k before pass j. */
  function LengthAt(n: nat, j: nat): int {
    n - 14 * j
  }

  /** The remainders dropped after the pass at length k. */
  function Dropped(r: seq<int>, k: int): real
    requires 1 <= k < |r|
  {
    Sum(r, if k > 14 then k - 13 else 1, k + 1)
  }

  /** All that was dropped, each tail scaled by the passes after it; rs are the arrays after each pass. */
  function Lost(rs: seq<seq<int>>, n: nat): real
    requires forall j :: 0 <= j < |rs| ==> 1 <= LengthAt(n, j) < |rs[j]|
  {
    if rs == [] then 0.0
    else 10000.0 * Lost(rs[..|rs| - 1], n) + Dropped(rs[|rs| - 1], LengthAt(n, |rs| - 1))
  }

  /** The value still in the array at length k; nothing when k is not positive. */
  function Remaining(r: seq<int>, k: int): real
    requires k < |r|
  {
    if k > 0 then Sum(r, 1, k + 1) else 0.0
  }

  /** What is emitted with its carry, what remains and what was dropped add up to the scaled start. */
  predicate Conserved(digits: seq<int>, c: int, r: seq<int>, k: int, rs: seq<seq<int>>, n: nat, start: real)
    requires k < |r| && forall j :: 0 <= j < |rs| ==> 1 <= LengthAt(n, j) < |rs[j]|
  {
    (Number(digits) * 10000 + c) as real + Remaining(r, k) + Lost(rs, n) == Pow10000(|rs|) * start
  }

  lemma ScaleUp(p: real, start: real)
    ensures 10000.0 * (p * start) == 10000.0 * p * start
  {
  }

  /** One pass keeps the balance. */
  lemma {:induction false} PassConserves(digits: seq<int>, c: int, was: seq<int>, r: seq<int>, k: int,
        rs: seq<seq<int>>, n: nat, start: real, d: int)
    requires 1 <= k < |was| && |r| == |was| && k == LengthAt(n, |rs|) && d >= 0
    requires forall j :: 0 <= j < |rs| ==> 1 <= LengthAt(n, j) < |rs[j]|
    requires Conserved(digits, c, was, k, rs, n, start)
    requires 10000.0 * Sum(was, 1, k + 1) == d as real + Sum(r, 1, k + 1)
    ensures forall j :: 0 <= j < |rs + [r]| ==> 1 <= LengthAt(n, j) < |(rs + [r])[j]|
    ensures Conserved(digits + [c + Div(d, 10000)], Mod(d, 10000), r, k - 14, rs + [r], n, start)
  {
    hide Sum, Number, Pow10000;
    var rs', g := rs + [r], digits + [c + Div(d, 10000)];
    assert rs'[..|rs'| - 1] == rs && g[..|g| - 1] == digits;
    NumberPush(digits, c + Div(d, 10000));
    PowNext(|rs|);
    Groups(Number(digits), c, d);
    KeptAndDropped(r, k);
    ScaleUp(Pow10000(|rs|), start);
  }

  lemma NumberPush(s: seq<int>, x: int)
    ensures Number(s + [x]) == Number(s) * 10000 + x
  {
    assert (s + [x])[..|s + [x]| - 1] == s;
  }

  lemma PowNext(m: nat)
    ensures Pow10000(m + 1) == 10000.0 * Pow10000(m)
  {
  }

  lemma Groups(e: int, c: int, d: int)
    requires d >= 0
    ensures ((e * 10000 + (c + d / 10000)) * 10000 + d % 10000) as real == 10000.0 * (e * 10000 + c) as real + d as real
  {
    assert (e * 10000 + (c + d / 10000)) * 10000 + d % 10000 == 10000 * (e * 10000 + c) + d;
  }

  lemma {:induction false} KeptAndDropped(r: seq<int>, k: int)
    requires 1 <= k < |r|
    ensures Sum(r, 1, k + 1) == Remaining(r, k - 14) + Dropped(r, k)
  {
    if k > 14 {
      SumSplit(r, 1, k - 13, k + 1);
    } else {
      assert Sum(r, 1, 1) == 0.0;
    }
  }

  /** The group and carry of a pass. */
  lemma GroupBound(first: bool, k: nat, c: int, d: int)
    requires AfterAdd(first, k, 1, d) && 1 <= k && 0 <= c < 10000 && (first ==> c == 0)
    ensures 0 <= Mod(d, 10000) < 10000 && 0 <= c + Div(d, 10000)
    ensures (first ==> k >= 7) ==> c + Div(d, 10000) <= 10000
    ensures c + Div(d, 10000) < 0x8000_0000
  {
    if first { FirstBoundFits(k - 1); }
  }

  // ---- what the dropped tails are worth ----

  /** 2^-l. */
  function Half(l: nat): real {
    if l == 0 then 1.0 else Half(l - 1) / 2.0
  }

  lemma {:induction false} HalfPositive(l: nat)
    ensures Half(l) > 0.0
  {
    if l > 0 { HalfPositive(l - 1); }
  }

  /** Each weight is at most half the one before. */
  lemma {:induction false} WeightBound(i: nat)
    requires i >= 1
    ensures 0.0 < W(i) <= Half(i - 1)
  {
    if i > 1 {
      WeightBound(i - 1);
      WeightStep(i);
      HalfOf(i, W(i), W(i - 1));
    }
  }

  lemma HalfOf(i: nat, w: real, v: real)
    requires i >= 2 && (2 * i - 1) as real * w == (i - 1) as real * v && v > 0.0
    ensures 0.0 < w <= v / 2.0
  {
    var b, c := (2 * i - 1) as real, (i - 1) as real;
    assert b == 2.0 * c + 1.0 && c >= 1.0;
    if w <= 0.0 { Signs(b, w, c, v); }
    if w > v / 2.0 { Exceeds(b, w, c, v); }
  }

  lemma Signs(b: real, w: real, c: real, v: real)
    requires b > 0.0 && w <= 0.0 && c > 0.0 && v > 0.0
    ensures b * w < c * v
  {
    assert b * w <= 0.0;
    assert c * v > 0.0;
  }

  lemma Exceeds(b: real, w: real, c: real, v: real)
    requires b == 2.0 * c + 1.0 && c > 0.0 && v > 0.0 && w > v / 2.0
    ensures b * w > c * v
  {
    assert b * (w - v / 2.0) > 0.0;
    assert b * (w - v / 2.0) == b * w - (c * v + v / 2.0);
  }

  /** Remainders up to index k: each below its divisor. */
  predicate Remainders(r: seq<int>, k: int)
    requires k < |r|
  {
    forall i :: 1 <= i <= k ==> 0 <= r[i] <= 2 * i - 2
  }

  lemma {:induction false} TailBound(r: seq<int>, lo: nat, hi: nat)
    requires 1 <= lo <= hi <= |r| && forall i :: lo <= i < hi ==> 0 <= r[i] <= 2 * i - 2
    ensures 0.0 <= Sum(r, lo, hi) <= 4.0 * lo as real * Half(lo - 1)
    decreases hi - lo
  {
    hide W, Half;
    HalfPositive(lo - 1);
    if lo < hi {
      TailBound(r, lo + 1, hi);
      WeightBound(lo);
      HalfNext(lo);
      OneTerm(r[lo] as real, lo as real, W(lo), Half(lo - 1));
    } else {
      NotBelow(4.0 * lo as real, Half(lo - 1));
    }
  }

  lemma HalfNext(l: nat)
    requires l >= 1
    ensures Half(l) == Half(l - 1) / 2.0
  {
  }

  lemma NotBelow(x: real, h: real)
    requires x >= 0.0 && h >= 0.0
    ensures x * h >= 0.0
  {
  }

  lemma OneTerm(x: real, l: real, w: real, h: real)
    requires l >= 1.0 && 0.0 <= x <= 2.0 * l - 2.0 && 0.0 < w <= h
    ensures 0.0 <= x * w
    ensures x * w + 4.0 * (l + 1.0) * (h / 2.0) <= 4.0 * l * h
  {
    Products(x, 2.0 * l - 2.0, w, h);
    assert (2.0 * l - 2.0) * h == 2.0 * (l * h) - 2.0 * h;
    assert 4.0 * (l + 1.0) * (h / 2.0) == 2.0 * (l * h) + 2.0 * h;
    assert 4.0 * l * h == 4.0 * (l * h);
  }

  lemma Products(x: real, y: real, w: real, h: real)
    requires 0.0 <= x <= y && 0.0 < w <= h
    ensures 0.0 <= x * w <= y * h
  {
    assert x * (h - w) >= 0.0;
    assert (y - x) * h >= 0.0;
  }

  /** What is dropped after the pass at length k. */
  lemma {:induction false} DroppedBound(r: seq<int>, k: int)
    requires 1 <= k < |r| && Remainders(r, k)
    ensures 0.0 <= Dropped(r, k)
    ensures k >= 14 ==> Dropped(r, k) <= 4.0 * (k - 13) as real * Half(k - 14)
    ensures k <= 14 ==> Dropped(r, k) <= 4.0
  {
    hide Sum;
    TailBound(r, if k > 14 then k - 13 else 1, k + 1);
    assert Half(0) == 1.0;
  }

  /** A bound on everything lost when length k is left: k is positive between passes, and not after the last. */
  function LostLimit(k: int): real
    requires k > -14
  {
    if k >= 0 then (11 * k + 252) as real * Half(k)
    else 10000.0 * ((11 * (k + 14) + 252) as real * Half(k + 14)) + 4.0
  }

  /** 10000 is less than 2^14, so a pass makes earlier losses worth less. */
  lemma {:induction false} LimitStep(k: nat, lost: real, dropped: real)
    requires k >= 1 && 0.0 <= lost <= LostLimit(k) && 0.0 <= dropped
    requires k >= 14 ==> dropped <= 4.0 * (k - 13) as real * Half(k - 14)
    requires k <= 14 ==> dropped <= 4.0
    ensures 0.0 <= 10000.0 * lost + dropped <= LostLimit(k - 14)
  {
    if k >= 14 {
      FourteenHalves(k - 14);
      HalfPositive(k - 14);
      Shrinks(k - 14, Half(k - 14), lost, dropped);
    }
  }

  lemma FourteenHalves(l: nat)
    ensures Half(l + 14) == Half(l) / 16384.0
  {
    assert Half(l + 14) == Half(l + 12) / 4.0 && Half(l + 12) == Half(l + 10) / 4.0;
    assert Half(l + 10) == Half(l + 8) / 4.0 && Half(l + 8) == Half(l + 6) / 4.0;
    assert Half(l + 6) == Half(l + 4) / 4.0 && Half(l + 4) == Half(l + 2) / 4.0 && Half(l + 2) == Half(l) / 4.0;
  }

  lemma Shrinks(l: nat, h: real, lost: real, dropped: real)
    requires h > 0.0 && lost <= (11 * (l + 14) + 252) as real * (h / 16384.0)
    requires dropped <= 4.0 * (l + 1) as real * h
    ensures 10000.0 * lost + dropped <= (11 * l + 252) as real * h
  {
    var x := l as real;
    assert (11 * (l + 14) + 252) as real == 11.0 * x + 406.0 && (11 * l + 252) as real == 11.0 * x + 252.0;
    var a := (11.0 * x + 406.0) * 10000.0 / 16384.0;
    assert a + 4.0 * (x + 1.0) <= 11.0 * x + 252.0;
    assert 10000.0 * lost <= a * h;
    assert (a + 4.0 * (x + 1.0)) * h <= (11.0 * x + 252.0) * h;
  }

  // ---- the run ----

  /** The groups fit an int, and from length 7 on the range 0..10000. */
  predicate GroupsFit(groups: seq<int>, n: nat) {
    forall j :: 0 <= j < |groups| ==> 0 <= groups[j] < 0x8000_0000 && (n >= 7 ==> groups[j] <= 10000)
  }

  /** The arrays after each pass, with their remainders. */
  predicate Passed(rs: seq<seq<int>>, n: nat) {
    forall j :: 0 <= j < |rs| ==> 1 <= LengthAt(n, j) < |rs[j]| && Remainders(rs[j], LengthAt(n, j))
  }

  /** Where the run stands when length k is left. */
  predicate Emitting(groups: seq<int>, c: int, r: seq<int>, k: int, rs: seq<seq<int>>, n: nat, start: real) {
    && |groups| == |rs| && k == LengthAt(n, |rs|) && -14 < k <= n <= 53701 && k < |r| && 0 <= c < 10000
    && GroupsFit(groups, n) && Passed(rs, n)
    && Conserved(groups, c, r, k, rs, n, start)
    && 0.0 <= Lost(rs, n) <= LostLimit(k)
    && (k > 0 ==> if rs == [] then Fresh(r, k) && c == 0 else Reduced(r, k))
  }

  lemma {:induction false} EmittingStarts(r: seq<int>, n: nat)
    requires 1 <= n <= 53701 && n < |r| && Fresh(r, n)
    ensures Emitting([], 0, r, n, [], n, Sum(r, 1, n + 1))
  {
    hide Sum, Fresh;
    StartBalance(r, n, Sum(r, 1, n + 1));
    HalfPositive(n);
    assert LostLimit(n) >= 0.0;
  }

  lemma {:induction false} EmittingStep(groups: seq<int>, c: int, was: seq<int>, r: seq<int>, k: int,
        rs: seq<seq<int>>, n: nat, start: real, d: int)
    requires Emitting(groups, c, was, k, rs, n, start) && k > 0 && |r| == |was| && d >= 0
    requires 10000.0 * Sum(was, 1, k + 1) == d as real + Sum(r, 1, k + 1)
    requires Remainders(r, k) && AfterAdd(rs == [], k, 1, d)
    ensures 0 <= c + Div(d, 10000) < 0x8000_0000
    ensures Emitting(groups + [c + Div(d, 10000)], Mod(d, 10000), r, k - 14, rs + [r], n, start)
  {
    hide Sum, Conserved, Lost, LostLimit, Dropped, Fresh, AfterAdd, Div, Mod, Reduced, Remainders;
    GroupBound(rs == [], k, c, d);
    StillReduced(r, k);
    PassConserves(groups, c, was, r, k, rs, n, start, d);
    DroppedBound(r, k);
    LimitStep(k, Lost(rs, n), Dropped(r, k));
    LostPush(rs, r, n);
  }

  lemma LostPush(rs: seq<seq<int>>, r: seq<int>, n: nat)
    requires forall j :: 0 <= j < |rs + [r]| ==> 1 <= LengthAt(n, j) < |(rs + [r])[j]|
    ensures forall j :: 0 <= j < |rs| ==> 1 <= LengthAt(n, j) < |rs[j]|
    ensures Lost(rs + [r], n) == 10000.0 * Lost(rs, n) + Dropped(r, LengthAt(n, |rs|))
  {
    hide Dropped;
    assert forall j :: 0 <= j < |rs| ==> (rs + [r])[j] == rs[j];
    assert (rs + [r])[..|rs|] == rs;
  }

  /**
    The spigot from length n. The emitted groups with the last carry, plus everything dropped, are
    10000^m times the initial value; what was dropped is worth at most 252 when n is a multiple of 14;
    from n = 7 on, every group lies in 0..10000.
   */
  method Pidigits(n: nat, top: int, digits: array<int>) returns (m: nat, ghost c: int, ghost rs: seq<seq<int>>)
    requires 1 <= n <= 53701 && 0 <= top <= 214748
    requires digits.Length >= (n + 13) / 14
    modifies digits
    ensures m == (n + 13) / 14 && |rs| == m && 0 <= c < 10000
    ensures forall j :: 0 <= j < m ==> 1 <= LengthAt(n, j) < |rs[j]|
    ensures (Number(digits[..m]) * 10000 + c) as real + Lost(rs, n) == Pow10000(m) * Sum(Start(n, top), 1, n + 1)
    ensures 0.0 <= Lost(rs, n) <= LostLimit(n - 14 * m)
    ensures forall j :: 0 <= j < m ==> 0 <= digits[j] < 0x8000_0000
    ensures n >= 7 ==> forall j :: 0 <= j < m ==> digits[j] <= 10000
  {
    hide Sum, Div, Mod, Number, Pow10000, Lost, LostLimit, AfterAdd, Fresh, Reduced, Emitting;
    var r := new int[n + 1];
    var i := 0;
    while i < n
      invariant 0 <= i <= n
      invariant forall j :: 0 <= j < i ==> r[j] == 2000
    {
      r[i] := 2000;
      i := i + 1;
    }
    r[n] := top;
    assert r[..] == Start(n, top);
    ghost var start := Sum(Start(n, top), 1, n + 1);
    var carry := 0;
    m := 0;
    rs := [];
    var k: int := n;
    StartFresh(r[..], n);
    EmittingStarts(r[..], n);
    assert digits[..0] == [];
    while k > 0
      invariant |rs| == m <= digits.Length && k == LengthAt(n, m) && -14 < k
      invariant Emitting(digits[..m], carry, r[..], k, rs, n, start)
      decreases k
    {
      ghost var was, groups := r[..], digits[..m];
      EmittingNow(groups, carry, was, k, rs, n, start);
      var d := Pass(r, k, m == 0);
      EmittingStep(groups, carry, was, r[..], k, rs, n, start, d);
      digits[m] := carry + Div(d, 10000);
      assert digits[..m + 1] == groups + [digits[m]];
      m := m + 1;
      carry := Mod(d, 10000);
      rs := rs + [r[..]];
      k := k - 14;
    }
    c := carry;
    EmittingEnds(digits[..m], c, r[..], k, rs, n, start);
  }

  lemma StartFresh(r: seq<int>, n: nat)
    requires 1 <= n < |r| && (forall i :: 0 <= i < n ==> r[i] == 2000) && 0 <= r[n] <= 214748
    ensures Fresh(r, n)
  {
  }

  lemma StillReduced(r: seq<int>, k: int)
    requires 1 <= k < |r| && k <= 53701 && Remainders(r, k)
    ensures k > 14 ==> Reduced(r, k - 14)
  {
  }

  lemma StartBalance(r: seq<int>, n: nat, start: real)
    requires 1 <= n < |r| && start == Sum(r, 1, n + 1)
    ensures Conserved([], 0, r, n, [], n, start)
  {
    hide Sum;
  }

  /** What a pass may assume. */
  lemma EmittingNow(groups: seq<int>, c: int, r: seq<int>, k: int, rs: seq<seq<int>>, n: nat, start: real)
    requires Emitting(groups, c, r, k, rs, n, start) && k > 0
    ensures if rs == [] then Fresh(r, k) else Reduced(r, k)
  {
    hide Fresh, Reduced, Conserved, Lost, LostLimit;
  }

  lemma EmittingEnds(groups: seq<int>, c: int, r: seq<int>, k: int, rs: seq<seq<int>>, n: nat, start: real)
    requires Emitting(groups, c, r, k, rs, n, start) && k <= 0
    ensures 0 <= c < 10000 && GroupsFit(groups, n)
    ensures forall j :: 0 <= j < |rs| ==> 1 <= LengthAt(n, j) < |rs[j]|
    ensures (Number(groups) * 10000 + c) as real + Lost(rs, n) == Pow10000(|rs|) * start
    ensures 0.0 <= Lost(rs, n) <= LostLimit(k)
  {
    hide Number, Pow10000, Lost, LostLimit;
  }

  /**
    For a length that is a multiple of 14, the emitted number is the initial value times 10000^(m - 1),
    rounded down, or one less; it is never less when the last carry is below 9748.
   */
  lemma {:induction false} EmittedIsFloor(groups: seq<int>, c: int, rs: seq<seq<int>>, n: nat, start: real)
    requires n % 14 == 0 && |rs| == n / 14 && n >= 1 && 0 <= c < 10000
    requires forall j :: 0 <= j < |rs| ==> 1 <= LengthAt(n, j) < |rs[j]|
    requires (Number(groups) * 10000 + c) as real + Lost(rs, n) == Pow10000(|rs|) * start
    requires 0.0 <= Lost(rs, n) <= LostLimit(n - 14 * |rs|)
    ensures var v := Pow10000(|rs| - 1) * start;
            v.Floor - 1 <= Number(groups) <= v.Floor && (c < 9748 ==> Number(groups) == v.Floor)
  {
    hide Number, Lost, Pow10000;
    var v := Pow10000(|rs| - 1) * start;
    PowNext(|rs| - 1);
    ScaleUp(Pow10000(|rs| - 1), start);
    assert LostLimit(0) == 252.0;
    FloorOf(Number(groups), c, Lost(rs, n), v);
  }

  lemma FloorOf(number: int, c: int, lost: real, v: real)
    requires 0 <= c < 10000 && 0.0 <= lost <= 252.0 && (number * 10000 + c) as real + lost == 10000.0 * v
    ensures v.Floor - 1 <= number <= v.Floor && (c < 9748 ==> number == v.Floor)
  {
    var x := number as real;
    assert (number * 10000 + c) as real == 10000.0 * x + c as real;
    assert x <= v < x + 2.0;
    assert c < 9748 ==> v < x + 1.0;
  }

  // ---- printing ----

  /** The groups as they are printed: each as a plain decimal, one after the other. */
  function Printed(groups: seq<int>): seq<Byte> {
    if groups == [] then [] else Printed(groups[..|groups| - 1]) + Stdlib.Text(groups[|groups| - 1], 10)
  }

  /** Text t is the decimal numeral of v: digits only, no leading zero, and it parses to v. */
  predicate Numeral(t: seq<Byte>, v: int) {
    && t != [] && (forall i :: 0 <= i < |t| ==> 0x30 <= t[i] <= 0x39)
    && (t[0] == 0x30 ==> |t| == 1) && Stdlib.Fold(t) == v
  }

  /** The bytes between offsets j and j + 1 are the numeral of v. */
  ghost predicate PieceIs(out: seq<Byte>, offsets: seq<nat>, j: nat, v: int)
    requires j + 1 < |offsets|
  {
    offsets[j] <= offsets[j + 1] <= |out| && Numeral(out[offsets[j]..offsets[j + 1]], v)
  }

  /** The output is the numerals of the groups, in order, and nothing else. */
  ghost predicate Splits(out: seq<Byte>, offsets: seq<nat>, groups: seq<int>) {
    && |offsets| == |groups| + 1 && offsets[0] == 0 && offsets[|groups|] == |out|
    && forall j :: 0 <= j < |groups| ==> PieceIs(out, offsets, j, groups[j])
  }

  lemma {:induction false} SplitsNext(out: seq<Byte>, offsets: seq<nat>, groups: seq<int>, t: seq<Byte>, v: int)
    requires Splits(out, offsets, groups) && Numeral(t, v)
    ensures Splits(out + t, offsets + [|out + t|], groups + [v])
  {
    hide Numeral;
    var o, g, out' := offsets + [|out + t|], groups + [v], out + t;
    forall j | 0 <= j < |g| ensures PieceIs(out', o, j, g[j]) {
      if j < |groups| {
        assert PieceIs(out, offsets, j, groups[j]);
        assert out'[o[j]..o[j + 1]] == out[offsets[j]..offsets[j + 1]];
      } else {
        assert out'[o[j]..o[j + 1]] == t;
      }
    }
  }

  method Strlen(buf: array<Byte>) returns (n: nat)
    requires exists i :: 0 <= i < buf.Length && buf[i] == 0
    ensures n < buf.Length && buf[n] == 0 && 0 !in buf[..n]
  {
    n := 0;
    while buf[n] != 0
      invariant n < buf.Length && 0 !in buf[..n]
      invariant exists i :: n <= i < buf.Length && buf[i] == 0
      decreases buf.Length - n
    {
      n := n + 1;
    }
  }

  /**
    The printing loop of main: every group of a run from n = 7 on fits the eight-byte buffer with its
    terminator, and the output is the groups' numerals one after the other.
   */
  method Print(digits: seq<int>) returns (out: seq<Byte>, ghost offsets: seq<nat>)
    requires forall j :: 0 <= j < |digits| ==> 0 <= digits[j] <= 10000
    ensures out == Printed(digits)
    ensures Splits(out, offsets, digits)
  {
    hide Stdlib.Text, Numeral;
    var buf := new Byte[8](_ => 0);
    out := [];
    offsets := [0];
    assert digits[..0] == [];
    var j := 0;
    while j < |digits|
      invariant 0 <= j <= |digits| && out == Printed(digits[..j])
      invariant Splits(out, offsets, digits[..j])
    {
      Stdlib.ShortText(digits[j]);
      Stdlib.AtoiOfItoa(digits[j]);
      Stdlib.Itoa(digits[j], buf, 10);
      ghost var t := Stdlib.Text(digits[j], 10);
      var n := Strlen(buf);
      FirstNul(buf[..], t, n);
      TextIsNumeral(digits[j]);
      SplitsNext(out, offsets, digits[..j], t, digits[j]);
      out := out + buf[..n];
      offsets := offsets + [|out|];
      assert digits[..j + 1] == digits[..j] + [digits[j]];
      assert digits[..j + 1][..j] == digits[..j];
      j := j + 1;
    }
    assert digits[..j] == digits;
  }

  lemma {:induction false} TextIsNumeral(v: nat)
    ensures Numeral(Stdlib.Text(v, 10), v)
  {
    hide Stdlib.Digits, Stdlib.Chars, Stdlib.Fold;
    Stdlib.TextIs(v, 10);
    Stdlib.DigitsAreCanonical(v, 10);
    if v == 0 {
      Stdlib.ZeroText();
    } else {
      Stdlib.FoldOfDigits(v);
      Stdlib.DecimalChars(Stdlib.Digits(v, 10));
    }
  }

  /** Four-digit groups read back as one number. */
  lemma {:induction false} PrintedIsNumber(groups: seq<int>)
    requires forall j :: 0 <= j < |groups| ==> 1000 <= groups[j] <= 9999
    ensures Stdlib.Fold(Printed(groups)) == Number(groups)
  {
    hide Stdlib.Fold, Stdlib.Text, Numeral;
    if groups == [] {
      Stdlib.EmptyFold();
    } else {
      var n := |groups| - 1;
      PrintedIsNumber(groups[..n]);
      TextIsNumeral(groups[n]);
      Stdlib.FourDigits(groups[n]);
      NumeralFold(Stdlib.Text(groups[n], 10), groups[n]);
      Stdlib.FoldFour(Printed(groups[..n]), Stdlib.Text(groups[n], 10));
    }
  }

  lemma NumeralFold(t: seq<Byte>, v: int)
    requires Numeral(t, v)
    ensures Stdlib.Fold(t) == v
  {
  }

  lemma FirstNul(s: seq<Byte>, t: seq<Byte>, n: nat)
    requires |t| < |s| && s[..|t|] == t && s[|t|] == 0 && 0 !in t
    requires n < |s| && s[n] == 0 && 0 !in s[..n]
    ensures n == |t| && s[..n] == t
  {
    assert forall i :: 0 <= i < |t| ==> s[i] == s[..|t|][i] && s[i] in t;
    assert forall i :: 0 <= i < n ==> s[i] == s[..n][i] && s[i] in s[..n];
  }
}
