/**
 When `NextGreaterElement` keeps its promise: from -9 on, and for no smaller argument. The
 arguments for which the answer wraps around the int range need an argument about digits.
 */
module SignedNumbers {
  import opened NextPermutation

  function Abs(x: int): nat {
    if x < 0 then -x else x
  }

  /** `r` is the least number greater than `n` with the same digits. */
  ghost predicate NextAmongInts(n: int, r: int) {
    r > n && SameDigits(Abs(r), Abs(n)) && forall k: int :: n < k < r ==> !SameDigits(Abs(k), Abs(n))
  }

  ghost predicate NoGreaterInt(n: int) {
    forall k: int :: n < k <= INT_MAX ==> !SameDigits(Abs(k), Abs(n))
  }

  /** What is promised: the next greater number with the same digits, or -1 if no int is one. */
  ghost predicate AsPromised(n: int, r: int) {
    NextAmongInts(n, r) || (r == -1 && NoGreaterInt(n))
  }

  // ---------------------------------------------------------------- counting and weighing digits

  function Pow10(k: nat): (p: nat)
    ensures p >= 1
  {
    if k == 0 then 1 else 10 * Pow10(k - 1)
  }

  lemma {:induction false} DigitCount(n: nat)
    ensures n < Pow10(|Digits(n)|)
    ensures n > 0 ==> Pow10(|Digits(n)| - 1) <= n
  {
    if n >= 10 {
      DigitCount(n / 10);
      assert |Digits(n)| == |Digits(n / 10)| + 1;
    }
  }

  lemma SameCount(a: nat, b: nat)
    requires SameDigits(a, b)
    ensures |Digits(a)| == |Digits(b)|
  {
    PermutesLength(Digits(a), Digits(b));
  }

  lemma {:induction false} PowGrows(a: nat, b: nat)
    requires a <= b
    ensures Pow10(a) <= Pow10(b)
  {
    if a < b {
      PowGrows(a, b - 1);
    }
  }

  /** Numbers with the same digits lie in the same decade. */
  lemma SameDecade(a: nat, b: nat, k: nat)
    requires SameDigits(a, b) && a > 0 && b > 0
    ensures a < Pow10(k) <==> b < Pow10(k)
  {
    hide SameDigits, Digits, Pow10;
    SameCount(a, b);
    DigitCount(a);
    DigitCount(b);
    if |Digits(a)| <= k {
      PowGrows(|Digits(a)|, k);
    } else {
      PowGrows(k, |Digits(a)| - 1);
    }
  }

  predicate AllDigits(s: string) {
    forall i :: 0 <= i < |s| ==> '0' <= s[i] <= '9'
  }

  function DigitSum(s: string): nat
    requires AllDigits(s)
  {
    if s == [] then 0 else DigitSum(s[..|s| - 1]) + DigitOf(s[|s| - 1])
  }

  function Omit(s: string, k: nat): string
    requires k < |s|
  {
    s[..k] + s[k + 1..]
  }

  lemma {:induction false} SumOmit(s: string, k: nat)
    requires k < |s| && AllDigits(s)
    ensures AllDigits(Omit(s, k)) && DigitSum(s) == DigitSum(Omit(s, k)) + DigitOf(s[k])
  {
    hide Omit;
    var n := |s| - 1;
    OmitLast(s, k);
    if k < n {
      SumOmit(s[..n], k);
    }
  }

  lemma OmitLast(s: string, k: nat)
    requires k < |s| && AllDigits(s)
    ensures var n, rest := |s| - 1, Omit(s, k);
            && |rest| == n && AllDigits(rest)
            && (if k == n then rest == s[..n] else rest[..n - 1] == Omit(s[..n], k) && rest[n - 1] == s[n])
  {
  }

  lemma BagOmit(s: string, k: nat)
    requires k < |s|
    ensures multiset(Omit(s, k)) == multiset(s) - multiset{s[k]}
  {
    assert s == s[..k] + [s[k]] + s[k + 1..];
  }

  lemma {:induction false} SumPermutes(a: string, b: string)
    requires AllDigits(a) && AllDigits(b) && Permutes(a, b)
    ensures DigitSum(a) == DigitSum(b)
    decreases |a|
  {
    hide DigitSum, Omit, AllDigits;
    PermutesLength(a, b);
    if a != [] {
      assert a[0] in multiset(b);
      var k :| 0 <= k < |b| && b[k] == a[0];
      SumOmit(a, 0);
      SumOmit(b, k);
      BagOmit(a, 0);
      BagOmit(b, k);
      ShorterOmit(a, 0);
      SumPermutes(Omit(a, 0), Omit(b, k));
    }
  }

  lemma ShorterOmit(s: string, k: nat)
    requires k < |s|
    ensures |Omit(s, k)| == |s| - 1
  {
  }

  /** A number differs from the sum of its digits by a multiple of nine. */
  lemma {:induction false} CastingOutNines(s: string) returns (k: nat)
    requires IsDigits(s)
    ensures AllDigits(s) && Value(s) == DigitSum(s) + 9 * k
  {
    var n := |s| - 1;
    if n == 0 {
      assert s[..0] == [];
      k := 0;
    } else {
      var j := CastingOutNines(s[..n]);
      k := DigitSum(s[..n]) + 10 * j;
    }
  }

  lemma SameRemainder(a: nat, b: nat)
    requires SameDigits(a, b)
    ensures a % 9 == b % 9
  {
    hide Digits, Value, DigitSum;
    var j := CastingOutNines(Digits(a));
    var k := CastingOutNines(Digits(b));
    SumPermutes(Digits(a), Digits(b));
    ValueOfDigits(a);
    ValueOfDigits(b);
    assert a + 9 * k == b + 9 * j;
  }

  // ---------------------------------------------------------------- swapping two digits

  /** Exchanging two digits of a number gives another number with the same digits. */
  lemma SwapDigits(d: nat, i: nat, j: nat) returns (q: nat)
    requires i < j < |Digits(d)| && Digits(d)[i] != Digits(d)[j] && (i > 0 || Digits(d)[j] != '0')
    ensures SameDigits(q, d) && Digits(q) == Swapped(Digits(d), i, j)
    ensures q < d <==> Digits(d)[j] < Digits(d)[i]
    ensures q > d <==> Digits(d)[i] < Digits(d)[j]
  {
    hide Value, Digits, LexLess;
    var s := Digits(d);
    var t := Swapped(s, i, j);
    assert multiset(t) == multiset(s);
    DigitStringsKeepDigits(s, t);
    FirstDigit(d);
    DigitsOfValue(t);
    q := Value(t);
    ValueOfDigits(d);
    LexIsNumeric(s, t);
    LexIsNumeric(t, s);
    DecidedAt(s, t, i);
    DecidedAt(t, s, i);
  }

  lemma FirstDigit(d: nat)
    ensures |Digits(d)| > 1 ==> Digits(d)[0] != '0'
  {
  }

  /** Numbers that share their first `p` digits are close. */
  lemma {:induction false} Close(a: string, b: string, p: nat)
    requires IsDigits(a) && IsDigits(b) && |a| == |b| && p <= |a| && Agree(a, b, p)
    ensures Value(b) - Value(a) < Pow10(|a| - p)
  {
    var n := |a| - 1;
    if p == |a| {
      assert a == b;
    } else if n > 0 {
      Close(a[..n], b[..n], p);
    }
  }

  /** The value of digits `i` and `i + 1` of a number. */
  function Pair(s: string, i: nat): (v: nat)
    requires IsDigits(s) && i + 1 < |s|
    ensures v < 100
  {
    10 * DigitOf(s[i]) + DigitOf(s[i + 1])
  }

  /** A number of ten digits. */
  lemma TenDigits(s: string)
    requires IsDigits(s) && |s| == 10
    ensures Value(s) == 100_000_000 * Pair(s, 0) + 1_000_000 * Pair(s, 2) + 10_000 * Pair(s, 4) + 100 * Pair(s, 6) + Pair(s, 8)
  {
    hide Value, Pair;
    TwoMore(s, 0);
    TwoMore(s, 2);
    TwoMore(s, 4);
    TwoMore(s, 6);
    TwoMore(s, 8);
    assert s[..10] == s;
  }

  lemma TwoMore(s: string, i: nat)
    requires IsDigits(s) && i + 1 < |s|
    ensures Value(s[..i + 2]) == Pair(s, i) + if i == 0 then 0 else 100 * Value(s[..i])
  {
    hide Value;
    Prefix(s, i);
    Prefix(s, i + 1);
  }

  lemma Prefix(s: string, k: nat)
    requires IsDigits(s) && k < |s|
    ensures Value(s[..k + 1]) == DigitOf(s[k]) + if k == 0 then 0 else 10 * Value(s[..k])
  {
    ValueSplit(s[..k + 1]);
    assert s[..k + 1][..k] == s[..k];
  }

  // ---------------------------------------------------------------- from -9 to -1

  lemma OneDigit(a: nat, d: nat)
    requires d < 10 && SameDigits(a, d)
    ensures a == d
  {
    SameCount(a, d);
    assert a < 10;
    assert Digits(a)[0] in multiset(Digits(d));
    assert CharOf(a) == CharOf(d);
  }

  lemma OneDigitLargest(d: nat)
    requires d < 10
    ensures Largest(d)
  {
    hide SameDigits;
    forall m: nat | m > d ensures !SameDigits(m, d) {
      if SameDigits(m, d) {
        OneDigit(m, d);
      }
    }
  }

  lemma OneDigitKept(n: int, r: int)
    requires -9 <= n < 0 && Outcome(n, r)
    ensures AsPromised(n, r)
  {
    hide SameDigits, Narrow;
    OneDigitLargest(-n);
    assert r == -n;
    Itself(-n);
    forall k: int | n < k < r ensures !SameDigits(Abs(k), Abs(n)) {
      if SameDigits(Abs(k), Abs(n)) {
        OneDigit(Abs(k), Abs(n));
      }
    }
  }

  lemma Itself(d: nat)
    ensures SameDigits(d, d)
  {
  }

  lemma NaturalKept(n: nat, r: int)
    requires NextInt(n, r)
    ensures AsPromised(n, r)
  {
    hide SameDigits;
    if r == -1 {
      forall k: int | n < k <= INT_MAX ensures !SameDigits(Abs(k), Abs(n)) {
        assert Abs(k) == k;
      }
    } else {
      forall k: int | n < k < r ensures !SameDigits(Abs(k), Abs(n)) {
        assert Abs(k) == k;
      }
    }
  }

  // ---------------------------------------------------------------- below -9

  /** Some int greater than `n` has its digits, so -1 is never the right answer below 0. */
  lemma SomeGreaterInt(n: int)
    requires INT_MIN <= n < 0
    ensures !NoGreaterInt(n)
  {
    hide SameDigits;
    Itself(-n);
    if n > INT_MIN {
      assert n < -n <= INT_MAX && Abs(-n) == Abs(n);
    } else {
      var q := SmallerThanMin();
      assert n < -q <= INT_MAX && Abs(-q) == q;
    }
  }

  lemma SmallerThanMin() returns (q: nat)
    ensures q < -INT_MIN && SameDigits(q, -INT_MIN)
  {
    hide SameDigits;
    MinDigits();
    q := SwapDigits(-INT_MIN, 7, 8);
  }

  lemma MinDigits()
    ensures Digits(-INT_MIN) == "2147483648"
  {
    hide Digits;
    assert IsDigits("2147483648");
    TenDigits("2147483648");
    DigitsOfValue("2147483648");
  }

  lemma LargestFails(n: int, r: int)
    requires n < -9 && Largest(-n) && r == -n % 10
    ensures !SameDigits(Abs(r), Abs(n))
  {
    hide SameDigits, Largest;
    if SameDigits(Abs(r), Abs(n)) {
      SameFlip(Abs(r), Abs(n));
      OneDigit(Abs(n), r);
      assert false;
    }
  }

  lemma SameFlip(a: nat, b: nat)
    requires SameDigits(a, b)
    ensures SameDigits(b, a)
  {
  }

  lemma NextFacts(n: nat, m: nat)
    requires IsNextNumber(n, m)
    ensures m > n && SameDigits(m, n)
  {
  }

  lemma NextIsLeast(n: nat, m: nat, q: nat)
    requires IsNextNumber(n, m) && q > n && SameDigits(q, n)
    ensures m <= q
  {
  }

  /** The int that a number of up to ten digits is cut down to. */
  lemma Wrapped(m: nat) returns (k: nat)
    requires -INT_MIN < m < 10_000_000_000
    ensures 1 <= k <= 2 && Narrow(0 - m) == 0x1_0000_0000 * k - m
  {
    k := if m <= 0x1_8000_0000 then 1 else 2;
    var x := 0 - m - INT_MIN + 0x1_0000_0000 * k;
    assert 0 <= x < 0x1_0000_0000;
    assert 0 - m - INT_MIN == x + 0x1_0000_0000 * (0 - k);
  }

  lemma NinesApart(m: nat, e: nat, k: nat)
    requires 1 <= k <= 2 && m - e == 0x1_0000_0000 * k
    ensures m % 9 != e % 9
  {
  }

  lemma NotTheNext(n: int, r: int, k: int)
    requires n < k < r && SameDigits(Abs(k), Abs(n))
    ensures !NextAmongInts(n, r)
  {
  }

  /** Answers that wrap around: never the next greater number. */
  lemma WrapFails(d: nat, m: nat, r: int)
    requires 10 <= d <= -INT_MIN && IsNextNumber(d, m) && m > -INT_MIN && r == Narrow(0 - m)
    ensures !NextAmongInts(0 - d, r)
  {
    hide SameDigits, IsNextNumber, Narrow, NextAmongInts, Digits;
    NextFacts(d, m);
    TenOf(m, d);
    var k := Wrapped(m);
    MustShare(0 - d, r);
    if SameDigits(Abs(r), d) && r > 0 - d {
      if r < 0 {
        SameRemainder(m, d);
        SameRemainder(-r, d);
        NinesApart(m, -r, k);
      } else if r < d {
        NotZero(r, d);
        NotTheNext(0 - d, r, 0 - r);
      } else if r > d {
        Itself(d);
        NotTheNext(0 - d, r, d);
      } else {
        var q: int := Halves(d, m, k);
        NotTheNext(0 - d, r, 0 - q);
      }
    }
  }

  lemma NotZero(r: nat, d: nat)
    requires d >= 10 && SameDigits(r, d)
    ensures r > 0
  {
    hide SameDigits;
    if r == 0 {
      SameFlip(r, d);
      OneDigit(d, r);
    }
  }

  lemma TenOf(m: nat, d: nat)
    requires d <= -INT_MIN < m && SameDigits(m, d) && d > 0
    ensures m < 10_000_000_000 && d >= 1_000_000_000 && |Digits(d)| == 10
  {
    hide SameDigits, Digits;
    Powers();
    SameDecade(m, d, 10);
    SameDecade(m, d, 9);
    DigitCount(d);
    if |Digits(d)| <= 9 {
      PowGrows(|Digits(d)|, 9);
    } else if |Digits(d)| >= 11 {
      PowGrows(10, |Digits(d)| - 1);
    }
  }

  lemma Powers()
    ensures Pow10(8) == 100_000_000 && Pow10(9) == 1_000_000_000 && Pow10(10) == 10_000_000_000
  {
    assert Pow10(4) == 10_000;
    assert Pow10(8) == 100_000_000;
  }

  /** No number with the digits of `d` is smaller. */
  ghost predicate Smallest(d: nat) {
    forall q: nat :: q < d ==> !SameDigits(q, d)
  }

  /** The digits of such a number ascend behind the first, which is not larger than any but a zero. */
  lemma SmallestAscends(d: nat, i: nat, j: nat)
    requires Smallest(d) && i < j < |Digits(d)|
    ensures Digits(d)[i] <= Digits(d)[j] || (i == 0 && Digits(d)[j] == '0')
  {
    hide SameDigits, Digits;
    if Digits(d)[i] > Digits(d)[j] && !(i == 0 && Digits(d)[j] == '0') {
      var q := SwapDigits(d, i, j);
      assert false;
    }
  }

  /** The one coincidence left: `d` and the next number after it add up to a power of two. Then `d` is not the smallest. */
  lemma Halves(d: nat, m: nat, k: nat) returns (q: nat)
    requires 1_000_000_000 <= d <= -INT_MIN < m && |Digits(d)| == 10 && IsNextNumber(d, m)
    requires 1 <= k <= 2 && m + d == 0x1_0000_0000 * k
    ensures 0 < q < d && SameDigits(q, d)
  {
    hide SameDigits, Digits, IsNextNumber, Smallest;
    if Smallest(d) {
      NoHalves(d, m, k);
    }
    q := NotSmallest(d);
    NotZero(q, d);
  }

  lemma NotSmallest(d: nat) returns (q: nat)
    requires !Smallest(d)
    ensures q < d && SameDigits(q, d)
  {
    q :| q < d && SameDigits(q, d);
  }

  lemma NoHalves(d: nat, m: nat, k: nat)
    requires 1_000_000_000 <= d <= -INT_MIN < m && |Digits(d)| == 10 && IsNextNumber(d, m)
    requires Smallest(d) && 1 <= k <= 2
    ensures m + d != 0x1_0000_0000 * k
  {
    hide SameDigits, Digits, IsNextNumber, Smallest, Value;
    NextFacts(d, m);
    SameRemainder(m, d);
    var s := Digits(d);
    if i :| 2 <= i < 9 && s[i] != s[i + 1] {
      AscentApart(d, m, k, i);
    } else {
      assert s[9] == s[8] == s[7] == s[6] == s[5] == s[4] == s[3] == s[2];
      SmallestAscends(d, 0, 1);
      SmallestAscends(d, 0, 2);
      SmallestAscends(d, 1, 2);
      if s[1] == s[2] {
        OneTailApart(d, m, k);
      } else {
        TwoTailApart(d, m, k);
      }
    }
  }

  /** A smaller pair of digits behind the first two puts the next number close by, and the sum too low. */
  lemma AscentApart(d: nat, m: nat, k: nat, i: nat)
    requires d <= -INT_MIN && |Digits(d)| == 10 && IsNextNumber(d, m) && Smallest(d)
    requires 1 <= k <= 2 && 2 <= i < 9 && Digits(d)[i] != Digits(d)[i + 1]
    ensures m + d != 0x1_0000_0000 * k
  {
    hide SameDigits, Digits, IsNextNumber, Smallest, Value, Pow10;
    var s := Digits(d);
    SmallestAscends(d, i, i + 1);
    NextIsClose(d, m, i);
    SmallestAscends(d, 0, 1);
    SmallestAscends(d, 2, 3);
    if i > 2 {
      SmallestAscends(d, 2, i);
    }
    ValueOfDigits(d);
    TenDigits(s);
    AscentSum(DigitOf(s[0]), DigitOf(s[1]), DigitOf(s[2]), DigitOf(s[3]), d, m, k);
  }

  lemma NextIsClose(d: nat, m: nat, i: nat)
    requires |Digits(d)| == 10 && IsNextNumber(d, m) && 2 <= i < 9 && Digits(d)[i] < Digits(d)[i + 1]
    ensures m < d + 100_000_000
  {
    hide SameDigits, Digits, IsNextNumber, Value, Pow10;
    var q := SwapDigits(d, i, i + 1);
    NextIsLeast(d, m, q);
    ValueOfDigits(d);
    ValueOfDigits(q);
    Close(Digits(d), Digits(q), 2);
    Powers();
  }

  lemma AscentSum(a: nat, b: nat, c: nat, x: nat, d: nat, m: nat, k: nat)
    requires a < 10 && b < 10 && c < 9 && x < 10 && 1 <= k <= 2 && (a <= b || b == 0)
    requires 0 <= d - (1_000_000_000 * a + 100_000_000 * b + 10_000_000 * c + 1_000_000 * x) < 1_000_000
    requires d <= -INT_MIN && m < d + 100_000_000
    ensures m + d != 0x1_0000_0000 * k
  {
  }

  lemma OneTailApart(d: nat, m: nat, k: nat)
    requires 1_000_000_000 <= d <= -INT_MIN && |Digits(d)| == 10 && SameDigits(m, d) && m % 9 == d % 9
    requires 1 <= k <= 2 && forall i :: 1 <= i < 10 ==> Digits(d)[i] == Digits(d)[1]
    requires Digits(d)[0] <= Digits(d)[1] || Digits(d)[1] == '0'
    ensures m + d != 0x1_0000_0000 * k
  {
    hide SameDigits, Digits, Value;
    var s := Digits(d);
    ValueOfDigits(d);
    TenDigits(s);
    OneTailSum(DigitOf(s[0]), DigitOf(s[1]), m, k);
    if m == 2_294_967_296 {
      var j := HasLastDigit(m, d);
    }
  }

  lemma OneTailSum(a: nat, c: nat, m: nat, k: nat)
    requires 1 <= a < 10 && c < 10 && 1 <= k <= 2 && (a <= c || c == 0)
    requires 1_000_000_000 * a + 111_111_111 * c <= -INT_MIN && m % 9 == (1_000_000_000 * a + 111_111_111 * c) % 9
    ensures m + 1_000_000_000 * a + 111_111_111 * c == 0x1_0000_0000 * k ==> a == 2 && c == 0 && m == 2_294_967_296
  {
    assert a <= 2;
    assert a == 2 ==> c == 0;
  }

  lemma TwoTailApart(d: nat, m: nat, k: nat)
    requires 1_000_000_000 <= d <= -INT_MIN && |Digits(d)| == 10 && IsNextNumber(d, m) && m % 9 == d % 9
    requires 1 <= k <= 2 && forall i :: 2 <= i < 10 ==> Digits(d)[i] == Digits(d)[2]
    requires Digits(d)[1] < Digits(d)[2]
    requires Digits(d)[0] <= Digits(d)[1] || Digits(d)[1] == '0'
    ensures m + d != 0x1_0000_0000 * k
  {
    hide SameDigits, Digits, Value, IsNextNumber;
    NextFacts(d, m);
    var s := Digits(d);
    TwoTailValue(d);
    SecondThird(d, m);
    TwoTailSum(DigitOf(s[0]), DigitOf(s[1]), DigitOf(s[2]), m, k);
    if m == 2_194_967_297 {
      var j := HasLastDigit(m, d);
    }
  }

  lemma TwoTailValue(d: nat)
    requires |Digits(d)| == 10 && forall i :: 2 <= i < 10 ==> Digits(d)[i] == Digits(d)[2]
    ensures var s := Digits(d);
            && DigitOf(s[0]) >= 1
            && d == 1_000_000_000 * DigitOf(s[0]) + 100_000_000 * DigitOf(s[1]) + 11_111_111 * DigitOf(s[2])
  {
    hide Digits, Value;
    FirstDigit(d);
    ValueOfDigits(d);
    TenDigits(Digits(d));
  }

  lemma SecondThird(d: nat, m: nat)
    requires |Digits(d)| == 10 && IsNextNumber(d, m) && Digits(d)[1] < Digits(d)[2]
    requires forall i :: 2 <= i < 10 ==> Digits(d)[i] == Digits(d)[2]
    ensures var s := Digits(d);
            m <= 1_000_000_000 * DigitOf(s[0]) + 100_000_000 * DigitOf(s[2]) + 10_000_000 * DigitOf(s[1]) + 1_111_111 * DigitOf(s[2])
  {
    hide SameDigits, Digits, Value, IsNextNumber;
    var q := SwapDigits(d, 1, 2);
    NextIsLeast(d, m, q);
    ValueOfDigits(q);
    TenDigits(Digits(q));
  }

  lemma TwoTailSum(a: nat, b: nat, c: nat, m: nat, k: nat)
    requires 1 <= a < 10 && b < c < 10 && 1 <= k <= 2 && (a <= b || b == 0)
    requires 1_000_000_000 * a + 100_000_000 * b + 11_111_111 * c <= -INT_MIN
    requires m % 9 == (1_000_000_000 * a + 100_000_000 * b + 11_111_111 * c) % 9
    requires m <= 1_000_000_000 * a + 100_000_000 * c + 10_000_000 * b + 1_111_111 * c
    ensures m + 1_000_000_000 * a + 100_000_000 * b + 11_111_111 * c == 0x1_0000_0000 * k ==>
              a == 2 && b == 0 && c == 9 && m == 2_194_967_297
  {
    assert a <= 2;
    if a == 2 {
      assert b == 0;
    }
  }

  /** The last digit of a number is one of any number with the same digits. */
  lemma HasLastDigit(m: nat, d: nat) returns (j: nat)
    requires SameDigits(m, d)
    ensures j < |Digits(d)| && DigitOf(Digits(d)[j]) == m % 10
  {
    hide Digits;
    LastDigit(m);
    var c := Digits(m)[|Digits(m)| - 1];
    assert c in multiset(Digits(d));
    j :| 0 <= j < |Digits(d)| && Digits(d)[j] == c;
  }

  // ---------------------------------------------------------------- exactly when

  /** The answer is what is promised exactly for arguments from -9 on. */
  lemma KeptExactly(n: int, r: int)
    requires INT_MIN <= n <= INT_MAX && Outcome(n, r)
    ensures AsPromised(n, r) <==> n >= -9
  {
    hide NextInt, NextAmongInts, NoGreaterInt, Largest, IsNextNumber, SameDigits, Narrow;
    if n >= 0 {
      NaturalKept(n, r);
    } else if n >= -9 {
      OneDigitKept(n, r);
    } else {
      SomeGreaterInt(n);
      if Largest(-n) {
        LargestFails(n, r);
        MustShare(n, r);
      } else {
        var m: nat :| IsNextNumber(-n, m) && r == Narrow(0 - m);
        if m <= -INT_MIN {
          Shrinks(n, m);
        } else {
          WrapFails(-n, m, r);
        }
      }
    }
  }

  lemma MustShare(n: int, r: int)
    ensures NextAmongInts(n, r) ==> r > n && SameDigits(Abs(r), Abs(n))
  {
  }

  /** A next number that fits makes the answer smaller than the argument. */
  lemma Shrinks(n: int, m: nat)
    requires n < 0 && IsNextNumber(-n, m) && m <= -INT_MIN
    ensures Narrow(0 - m) == 0 - m < n
    ensures !NextAmongInts(n, Narrow(0 - m))
  {
    hide SameDigits;
  }

  /** With fewer than ten digits, the answer is not even a greater number with the same digits. */
  lemma BelowZero(n: int, r: int)
    requires -1_000_000_000 < n < -9 && Outcome(n, r)
    ensures !(r > n && SameDigits(Abs(r), Abs(n)))
  {
    hide Largest, IsNextNumber, SameDigits, Narrow;
    if Largest(-n) {
      LargestFails(n, r);
    } else {
      var m: nat :| IsNextNumber(-n, m) && r == Narrow(0 - m);
      NextFacts(-n, m);
      Powers();
      SameDecade(m, -n, 9);
      Shrinks(n, m);
    }
  }

  /** For example, the answer for -12 is -21. */
  method NegativeShrinks() returns (r: int)
    ensures r == -21 && !AsPromised(-12, r)
  {
    hide IsNextNumber, Largest, Narrow, AsPromised;
    r := NextGreaterElement(-12);
    KeptExactly(-12, r);
    TwentyOne();
    NextNotLargest(12, 21);
    ghost var m: nat :| IsNextNumber(12, m) && r == Narrow(0 - m);
    NextUnique(12, m, 21);
    Shrinks(-12, 21);
  }

  lemma NextUnique(n: nat, a: nat, b: nat)
    requires IsNextNumber(n, a) && IsNextNumber(n, b)
    ensures a == b
  {
  }

  lemma TwentyOne()
    ensures IsNextNumber(12, 21)
  {
    hide LexLess, SameDigits, IsNext, Value, Digits, PivotAndSwap, Successor, IsNextNumber;
    Twelve();
    SuccessorIsNext("12", 0, 1);
    NextNumber(12, "21");
  }

  lemma Twelve()
    ensures Digits(12) == "12" && IsDigits("21") && Value("21") == 21
    ensures PivotAndSwap("12", 0, 1) && Successor("12", 0, 1) == "21"
  {
    assert "21"[..1] == "2";
  }
}
