/** In-place integer printing and parsing. */
module Stdlib {
  import opened Words
  import PageTable

  type Int32 = x: int | -0x8000_0000 <= x < 0x8000_0000

  /** The character of a digit. */
  function DigitChar(d: nat): Byte
    requires d < 36
  {
    if d > 9 then d - 10 + 0x61 else d + 0x30
  }

  function Quot(n: nat, base: nat): (q: nat)
    requires base >= 2
    ensures n > 0 ==> q < n
  {
    QuotSmaller(n, base, n / base, n % base);
    n / base
  }

  function Rem(n: nat, base: nat): (r: nat)
    requires base >= 2
    ensures r < base
  {
    n % base
  }

  /** The digits of n in a base, most significant first; none for zero. */
  function Digits(n: nat, base: nat): (s: seq<nat>)
    requires base >= 2
  {
    if n == 0 then [] else Digits(Quot(n, base), base) + [Rem(n, base)]
  }

  function Append(v: nat, base: nat, d: nat): nat {
    v * base + d
  }

  /** The number that digits stand for, most significant first. */
  function Value(s: seq<nat>, base: nat): nat {
    if s == [] then 0 else Append(Value(s[..|s| - 1], base), base, s[|s| - 1])
  }

  predicate Below(s: seq<nat>, base: nat) {
    forall i :: 0 <= i < |s| ==> s[i] < base
  }

  /** Digits below the base, without a leading zero. */
  predicate Canonical(s: seq<nat>, base: nat) {
    Below(s, base) && (s != [] ==> s[0] != 0)
  }

  lemma QuotSmaller(n: nat, base: nat, q: nat, r: nat)
    requires base >= 2 && n == base * q + r
    ensures n > 0 ==> q < n
  {
    assert base * q >= 2 * q;
  }

  lemma QuotRem(n: nat, base: nat)
    requires base >= 2
    ensures n == Append(Quot(n, base), base, Rem(n, base))
    ensures n < base ==> Quot(n, base) == 0 && Rem(n, base) == n
  {
    if n < base { PageTable.Remainder(n, base, 0, n); }
  }

  /** Digits is a numeral of n: the right value, proper digits, no leading zero. */
  lemma {:induction false} DigitsAreCanonical(n: nat, base: nat)
    requires base >= 2
    ensures Canonical(Digits(n, base), base) && Value(Digits(n, base), base) == n
  {
    if n > 0 {
      QuotRem(n, base);
      DigitsAreCanonical(Quot(n, base), base);
      var s := Digits(Quot(n, base), base);
      assert Digits(n, base)[..|s|] == s;
    }
  }

  lemma DigitsOfAppend(v: nat, base: nat, d: nat)
    requires base >= 2 && d < base && (v > 0 || d > 0)
    ensures Digits(Append(v, base, d), base) == Digits(v, base) + [d]
  {
    hide Quot, Rem, Append;
    LastDigit(v, d, base);
  }

  lemma ValuePush(t: seq<nat>, base: nat, d: nat)
    ensures Value(t + [d], base) == Append(Value(t, base), base, d)
  {
    assert (t + [d])[..|t|] == t;
  }

  /** ... and the only one. */
  lemma {:induction false} CanonicalIsDigits(s: seq<nat>, base: nat)
    requires base >= 2 && Canonical(s, base)
    ensures Digits(Value(s, base), base) == s
  {
    hide Digits, Append, Value;
    if s == [] {
      NoDigits(base);
    } else {
      var t, d := s[..|s| - 1], s[|s| - 1];
      assert s == t + [d];
      CanonicalIsDigits(t, base);
      ValuePush(t, base, d);
      if t == [] {
        NoDigits(base);
      } else {
        NotZero(t, base);
      }
      DigitsOfAppend(Value(t, base), base, d);
    }
  }

  lemma NoDigits(base: nat)
    requires base >= 2
    ensures Value([], base) == 0 && Digits(0, base) == []
  {
  }

  lemma LastDigit(v: nat, d: nat, base: nat)
    requires d < base
    ensures base >= 2 ==> Quot(Append(v, base, d), base) == v && Rem(Append(v, base, d), base) == d
    ensures base >= 2 && (v > 0 || d > 0) ==> Append(v, base, d) > 0
  {
    PageTable.Remainder(v * base + d, base, v, d);
  }

  lemma {:induction false} NotZero(s: seq<nat>, base: nat)
    requires base >= 2 && s != [] && Canonical(s, base)
    ensures Value(s, base) > 0
  {
    hide Append, Value;
    var t, d := s[..|s| - 1], s[|s| - 1];
    assert s == t + [d];
    ValuePush(t, base, d);
    LastDigit(Value(t, base), d, base);
    if t != [] {
      NotZero(t, base);
    }
  }

  function Chars(s: seq<nat>): (r: seq<Byte>)
    requires Below(s, 36)
    ensures |r| == |s|
  {
    seq(|s|, i requires 0 <= i < |s| => DigitChar(s[i]))
  }

  /** The text itoa should leave: the numeral, with a sign. */
  function Text(n: int, base: nat): seq<Byte>
    requires 2 <= base <= 36
  {
    DigitsAreCanonical(if n < 0 then -n else n, base);
    if n == 0 then [0x30]
    else if n > 0 then Chars(Digits(n, base))
    else [0x2d] + Chars(Digits(-n, base))
  }

  function Reversed<T>(s: seq<T>): (r: seq<T>)
    ensures |r| == |s|
    ensures forall i :: 0 <= i < |s| ==> r[i] == s[|s| - 1 - i]
  {
    if s == [] then [] else Reversed(s[1..]) + [s[0]]
  }

  /** Reverses the first length characters in place. */
  method Reverse(str: array<Byte>, length: nat)
    requires length <= str.Length
    modifies str
    ensures str[..length] == Reversed(old(str[..length]))
    ensures forall j :: length <= j < str.Length ==> str[j] == old(str[j])
  {
    var start, end := 0, length - 1;
    while start < end
      invariant 0 <= start <= end + 1 <= length && start + end == length - 1
      invariant forall i :: 0 <= i < start ==> str[i] == old(str[length - 1 - i])
      invariant forall i :: end < i < length ==> str[i] == old(str[length - 1 - i])
      invariant forall i :: start <= i <= end ==> str[i] == old(str[i])
      invariant forall i :: length <= i < str.Length ==> str[i] == old(str[i])
    {
      var tmp := str[end];
      str[end] := str[start];
      str[start] := tmp;
      start := start + 1;
      end := end - 1;
    }
  }

  lemma {:induction false} ReversedPush<T>(s: seq<T>, x: T)
    ensures Reversed(s + [x]) == [x] + Reversed(s)
  {
  }

  lemma CharsPush(s: seq<nat>, d: nat)
    requires Below(s, 36) && d < 36
    ensures Below(s + [d], 36)
    ensures Chars(s + [d]) == Chars(s) + [DigitChar(d)]
  {
  }

  /** Text in reading order once reversed: what the digit loop has still to print, then what it has printed. */
  lemma {:induction false} OneMoreDigit(base: nat, rest: nat, done: seq<Byte>)
    requires 2 <= base <= 36 && rest > 0
    requires Below(Digits(rest, base), 36)
    ensures Below(Digits(Quot(rest, base), base), 36)
    ensures Chars(Digits(rest, base)) + Reversed(done) ==
            Chars(Digits(Quot(rest, base), base)) + Reversed(done + [DigitChar(Rem(rest, base))])
  {
    hide Digits, Chars, Reversed, Quot, Rem, DigitChar, Value;
    var q, d := Quot(rest, base), Rem(rest, base);
    DigitsAreCanonical(q, base);
    DigitsStep(rest, base);
    CharsPush(Digits(q, base), d);
    ReversedPush(done, DigitChar(d));
    calc {
      Chars(Digits(rest, base)) + Reversed(done);
      Chars(Digits(q, base)) + [DigitChar(d)] + Reversed(done);
      Chars(Digits(q, base)) + ([DigitChar(d)] + Reversed(done));
      Chars(Digits(q, base)) + Reversed(done + [DigitChar(d)]);
    }
  }

  lemma DigitsStep(n: nat, base: nat)
    requires base >= 2 && n > 0
    ensures Digits(n, base) == Digits(Quot(n, base), base) + [Rem(n, base)]
  {
  }

  lemma TextIs(n: int, base: nat)
    requires 2 <= base <= 36
    ensures n == 0 ==> Text(n, base) == [0x30]
    ensures n > 0 ==> Below(Digits(n, base), 36) && Text(n, base) == Chars(Digits(n, base))
    ensures n < 0 ==> Below(Digits(-n, base), 36) && Text(n, base) == [0x2d] + Chars(Digits(-n, base))
  {
    DigitsAreCanonical(if n < 0 then -n else n, base);
  }

  /** Prints num and its terminator; the rest of the buffer is not touched. */
  method Itoa(num: Int32, str: array<Byte>, base: nat)
    requires 2 <= base <= 36 && num != -0x8000_0000 && (num < 0 ==> base == 10)
    requires |Text(num, base)| + 1 <= str.Length
    modifies str
    ensures var t := Text(num, base);
            str[..|t|] == t && str[|t|] == 0 && forall j :: |t| < j < str.Length ==> str[j] == old(str[j])
  {
    hide Text, Digits, DigitChar, Chars, Reversed, Below, Canonical, Value;
    var i := 0;
    TextIs(num, base);
    if num == 0 {
      str[i] := 0x30;
      i := i + 1;
      str[i] := 0;
      return;
    }
    var isNegative := false;
    var n: Int32 := num;
    if num < 0 && base == 10 {
      isNegative := true;
      n := -num;
    }
    i := PrintDigits(n, str, base);
    if isNegative {
      ghost var done := str[..i];
      str[i] := 0x2d;
      i := i + 1;
      assert str[..i] == done + [0x2d];
      ReversedPush(done, 0x2d);
    }
    str[i] := 0;
    Reverse(str, i);
  }

  /** The digit loop of itoa: the digits of n, last first. */
  method PrintDigits(num: Int32, str: array<Byte>, base: nat) returns (i: nat)
    requires 2 <= base <= 36 && num > 0
    requires |Digits(num, base)| < str.Length && Below(Digits(num, base), 36)
    modifies str
    ensures i == |Digits(num, base)| && Reversed(str[..i]) == Chars(Digits(num, base))
    ensures forall j :: i <= j < str.Length ==> str[j] == old(str[j])
  {
    hide Digits, DigitChar, Chars, Reversed, Below, Quot, Rem;
    ghost var all := Digits(num, base);
    var n: Int32 := num;
    i := 0;
    StartPrinting(n, base);
    assert str[..0] == [];
    while n != 0
      invariant 0 <= n && Below(Digits(n, base), 36)
      invariant i + |Digits(n, base)| == |all| < str.Length
      invariant Chars(Digits(n, base)) + Reversed(str[..i]) == Chars(all)
      invariant forall j :: |all| <= j < str.Length ==> str[j] == old(str[j])
    {
      OneMoreDigit(base, n, str[..i]);
      DigitCount(n, base);
      ghost var done := str[..i];
      var rem := Rem(n, base);
      str[i] := DigitChar(rem);
      i := i + 1;
      assert str[..i] == done + [DigitChar(rem)];
      n := Quot(n, base);
    }
    NothingLeft(base, str[..i]);
  }

  lemma NothingLeft(base: nat, done: seq<Byte>)
    requires base >= 2
    ensures Digits(0, base) == [] && Chars([]) + Reversed(done) == Reversed(done)
  {
  }

  lemma StartPrinting(n: nat, base: nat)
    requires base >= 2 && Below(Digits(n, base), 36)
    ensures Chars(Digits(n, base)) + Reversed([]) == Chars(Digits(n, base))
    ensures Digits(0, base) == [] && Chars([]) == []
  {
  }

  lemma DigitCount(n: nat, base: nat)
    requires base >= 2 && n > 0
    ensures |Digits(n, base)| == |Digits(Quot(n, base), base)| + 1
  {
  }

  // ---- atoi ----

  /** The number a run of characters stands for, were every one a decimal digit. */
  function Fold(s: seq<Byte>): int {
    if s == [] then 0 else Fold(s[..|s| - 1]) * 10 + s[|s| - 1] - 0x30
  }

  /** res * 10 + str[i], the largest value of the loop's expression at its last round. */
  function Peak(s: seq<Byte>): int
    requires s != []
  {
    Fold(s[..|s| - 1]) * 10 + s[|s| - 1]
  }

  /** No int of the loop overflows on any prefix. */
  predicate InRange(s: seq<Byte>) {
    s != [] ==>
      && InRange(s[..|s| - 1]) && Peak(s) < 0x8000_0000 && Fold(s[..|s| - 1]) * 10 > -0x8000_0000
      && Fold(s) >= -0x8000_0000
  }

  /** The digits part of a text, after a sign. */
  function Unsigned(s: seq<Byte>): seq<Byte> {
    if s != [] && s[0] == 0x2d then s[1..] else s
  }

  function Parsed(s: seq<Byte>): int {
    if s != [] && s[0] == 0x2d then -Fold(s[1..]) else Fold(s)
  }

  /** Parses the text before the terminator; the loop keeps within int when the text is InRange. */
  method Atoi(str: array<Byte>, ghost t: seq<Byte>) returns (r: int)
    requires |t| < str.Length && str[..|t|] == t && str[|t|] == 0 && 0 !in t
    requires InRange(Unsigned(t))
    ensures r == Parsed(t)
  {
    var res: Int32 := 0;
    var sign := 1;
    var i := 0;
    if str[0] == 0x2d {
      assert t[0] == 0x2d;
      sign := -1;
      i := i + 1;
    }
    ghost var u, from := Unsigned(t), i;
    assert u == str[from..|t|];
    while str[i] != 0
      invariant from <= i <= |t| && (forall j :: 0 <= j < |t| ==> str[j] == t[j])
      invariant u == str[from..|t|] && res == Fold(str[from..i])
      decreases |t| - i
    {
      assert str[i] == t[i] || i == |t|;
      ghost var v := str[from..i + 1];
      assert v[..|v| - 1] == str[from..i];
      assert u[..i + 1 - from] == v;
      PrefixInRange(u, i + 1 - from);
      var tens: Int32 := res * 10;
      var c: int := str[i];
      var peak: Int32 := tens + c;
      res := peak - 0x30;
      i := i + 1;
    }
    assert i == |t|;
    r := sign * res;
  }

  lemma {:induction false} PrefixInRange(s: seq<Byte>, k: nat)
    requires InRange(s) && k <= |s|
    ensures InRange(s[..k])
  {
    if k < |s| {
      PrefixInRange(s[..|s| - 1], k);
      assert s[..|s| - 1][..k] == s[..k];
    } else {
      assert s[..k] == s;
    }
  }

  // ---- round trip ----

  lemma CharsSplit(n: nat)
    requires n > 0
    ensures Below(Digits(n, 10), 10) && Below(Digits(Quot(n, 10), 10), 10)
    ensures Chars(Digits(n, 10)) == Chars(Digits(Quot(n, 10), 10)) + [DigitChar(Rem(n, 10))]
    ensures n == Quot(n, 10) * 10 + Rem(n, 10) && (Quot(n, 10) == 0 ==> Digits(Quot(n, 10), 10) == [])
  {
    hide Quot, Rem;
    DigitsAreCanonical(n, 10);
    DigitsAreCanonical(Quot(n, 10), 10);
    CharsPush(Digits(Quot(n, 10), 10), Rem(n, 10));
    QuotRem(n, 10);
  }

  lemma FoldPush(t: seq<Byte>, c: Byte)
    ensures Peak(t + [c]) == Fold(t) * 10 + c as int && Fold(t + [c]) == Peak(t + [c]) - 0x30
  {
    assert (t + [c])[..|t|] == t;
  }

  lemma InRangePush(t: seq<Byte>, c: Byte)
    ensures InRange(t + [c]) <==>
            InRange(t) && Peak(t + [c]) < 0x8000_0000 && Fold(t) * 10 > -0x8000_0000 && Fold(t + [c]) >= -0x8000_0000
  {
    hide Fold, Peak;
    assert (t + [c])[..|t|] == t;
  }

  lemma {:induction false} FoldOfDigits(n: nat)
    requires n > 0
    ensures Below(Digits(n, 10), 10) && Fold(Chars(Digits(n, 10))) == n
    ensures Peak(Chars(Digits(n, 10))) == n + 0x30
    ensures 0 !in Chars(Digits(n, 10)) && Chars(Digits(n, 10))[0] != 0x2d
  {
    hide Quot, Rem, Digits, Chars, DigitChar, Fold, Peak;
    var q, d := Quot(n, 10), Rem(n, 10);
    CharsSplit(n);
    var t, c := Chars(Digits(q, 10)), DigitChar(d);
    FoldPush(t, c);
    DecimalChar(d);
    if q > 0 {
      FoldOfDigits(q);
    } else {
      EmptyFold();
    }
  }

  lemma DecimalChar(d: nat)
    requires d < 10
    ensures DigitChar(d) as int == d + 0x30
  {
  }

  /** Printing keeps the parser within int exactly up to 2147483599: its peak is 48 above the number. */
  lemma {:induction false} InRangeOfDigits(n: nat)
    requires n > 0
    ensures Below(Digits(n, 10), 10)
    ensures InRange(Chars(Digits(n, 10))) <==> n <= 2147483599
  {
    hide Quot, Rem, Digits, Chars, DigitChar, Peak, Fold, InRange;
    var q := Quot(n, 10);
    CharsSplit(n);
    var t, c := Chars(Digits(q, 10)), DigitChar(Rem(n, 10));
    InRangePush(t, c);
    FoldPush(t, c);
    FoldOfDigits(n);
    if q > 0 {
      FoldOfDigits(q);
      InRangeOfDigits(q);
    } else {
      EmptyFold();
    }
  }

  lemma EmptyFold()
    ensures Fold([]) == 0 && InRange([]) && Chars([]) == []
  {
  }

  /** atoi undoes itoa in base 10, and its loop overflows no int exactly when the magnitude is at most 2147483599. */
  lemma {:induction false} AtoiOfItoa(n: int)
    ensures Parsed(Text(n, 10)) == n && 0 !in Text(n, 10)
    ensures InRange(Unsigned(Text(n, 10))) <==> -2147483599 <= n <= 2147483599
  {
    hide Digits, Chars, Fold, InRange;
    if n == 0 {
      ZeroText();
    } else {
      var m := if n < 0 then -n else n;
      FoldOfDigits(m);
      InRangeOfDigits(m);
      DigitsAreCanonical(m, 10);
      assert n < 0 ==> Text(n, 10)[1..] == Chars(Digits(m, 10));
    }
  }

  /** Every digit prints as one of the characters 0 to 9 and a to z. */
  lemma CharOfDigit(d: nat)
    requires d < 36
    ensures d < 10 ==> DigitChar(d) as int == '0' as int + d
    ensures d >= 10 ==> DigitChar(d) as int == 'a' as int + (d - 10)
  {
  }

  lemma DecimalChars(s: seq<nat>)
    requires Below(s, 10) && s != []
    ensures Below(s, 36) && forall i :: 0 <= i < |s| ==> 0x30 <= Chars(s)[i] <= 0x39
    ensures s[0] != 0 ==> Chars(s)[0] != 0x30
  {
  }

  /** Numbers from 1000 to 9999 take four characters. */
  lemma {:induction false} FourDigits(v: nat)
    requires 1000 <= v <= 9999
    ensures |Text(v, 10)| == 4
  {
    hide Digits, Chars, Quot;
    TextIs(v, 10);
    var a, b, c := Quot(v, 10), Quot(Quot(v, 10), 10), Quot(Quot(Quot(v, 10), 10), 10);
    Tenth(v);
    Tenth(a);
    Tenth(b);
    Tenth(c);
    DigitCount(v, 10);
    DigitCount(a, 10);
    DigitCount(b, 10);
    DigitCount(c, 10);
    NoDigits(10);
  }

  lemma Tenth(v: nat)
    ensures 10 * Quot(v, 10) <= v < 10 * Quot(v, 10) + 10
  {
  }

  /** Four more characters. */
  lemma {:induction false} FoldFour(s: seq<Byte>, t: seq<Byte>)
    requires |t| == 4
    ensures Fold(s + t) == Fold(s) * 10000 + Fold(t)
  {
    hide Fold, Peak;
    EmptyFold();
    var t1, t2, t3 := [t[0]], [t[0], t[1]], [t[0], t[1], t[2]];
    assert t == t3 + [t[3]] && t3 == t2 + [t[2]] && t2 == t1 + [t[1]] && t1 == [] + [t[0]];
    assert s + t == ((s + [t[0]] + [t[1]]) + [t[2]]) + [t[3]];
    FoldPush([], t[0]);
    FoldPush(t1, t[1]);
    FoldPush(t2, t[2]);
    FoldPush(t3, t[3]);
    FoldPush(s, t[0]);
    FoldPush(s + [t[0]], t[1]);
    FoldPush(s + [t[0]] + [t[1]], t[2]);
    FoldPush(s + [t[0]] + [t[1]] + [t[2]], t[3]);
  }

  lemma ZeroText()
    ensures Fold([0x30]) == 0 && InRange([0x30])
  {
    var s: seq<Byte> := [0x30];
    assert s[..0] == [];
  }

  /** Numbers up to 10000 print in at most five characters. */
  lemma {:induction false} ShortText(n: nat)
    requires n <= 10000
    ensures |Text(n, 10)| <= 5
  {
    DigitsBound(n, 5, 100000);
  }

  function Pow10(k: nat): nat {
    if k == 0 then 1 else 10 * Pow10(k - 1)
  }

  lemma {:induction false} DigitsBound(n: nat, k: nat, p: nat)
    requires p == Pow10(k) && n < p
    ensures |Digits(n, 10)| <= k
  {
    if n > 0 {
      DigitsBound(n / 10, k - 1, Pow10(k - 1));
    }
  }
}
