/**
 The next permutation of a string in lexicographic order, and the next greater integer
 with the same decimal digits.
 */
module NextPermutation {
  import opened Options

  // ---------------------------------------------------------------- the order

  /** The strings have the same first `d` characters. */
  ghost predicate Agree(a: string, b: string, d: nat)
    requires d <= |a| && d <= |b|
  {
    forall i :: 0 <= i < d ==> a[i] == b[i]
  }

  /** The first position at which two strings of equal length differ, or their length. */
  function FirstDiff(a: string, b: string): (d: nat)
    requires |a| == |b|
    ensures d <= |a| && Agree(a, b, d)
    ensures d < |a| ==> a[d] != b[d]
  {
    if a == [] || a[0] != b[0] then 0 else 1 + FirstDiff(a[1..], b[1..])
  }

  predicate LexLess(a: string, b: string)
    requires |a| == |b|
  {
    var d := FirstDiff(a, b);
    d < |a| && a[d] < b[d]
  }

  /** Only the first difference decides. */
  lemma DecidedAt(a: string, b: string, d: nat)
    requires |a| == |b| && d < |a| && Agree(a, b, d) && a[d] != b[d]
    ensures FirstDiff(a, b) == d && (LexLess(a, b) <==> a[d] < b[d])
  {
    hide FirstDiff;
    var e := FirstDiff(a, b);
  }

  /** A common beginning does not matter. */
  lemma TailDecides(a: string, b: string, m: nat)
    requires |a| == |b| && m <= |a| && Agree(a, b, m)
    ensures LexLess(a, b) <==> LexLess(a[m..], b[m..])
  {
    hide FirstDiff;
    var d := FirstDiff(a, b);
    if d < |a| {
      assert m <= d;
      DecidedAt(a[m..], b[m..], d - m);
    } else {
      assert a == b;
    }
  }

  ghost predicate Permutes(a: string, b: string) {
    multiset(a) == multiset(b)
  }

  lemma PermutesLength(a: string, b: string)
    requires Permutes(a, b)
    ensures |a| == |b|
  {
    assert |multiset(a)| == |multiset(b)|;
  }

  lemma PermutesSuffix(a: string, b: string, d: nat)
    requires Permutes(a, b) && d <= |a| && d <= |b| && Agree(a, b, d)
    ensures Permutes(a[d..], b[d..])
  {
    assert a == a[..d] + a[d..] && b == b[..d] + b[d..];
    assert a[..d] == b[..d];
    assert multiset(a[d..]) == multiset(a) - multiset(a[..d]);
    assert multiset(b[d..]) == multiset(b) - multiset(b[..d]);
  }

  /** What one of two permutations has at the end of a common beginning, the other has there or later. */
  lemma FoundLater(s: string, p: string, d: nat) returns (k: nat)
    requires Permutes(s, p) && |s| == |p| && d < |s| && Agree(s, p, d)
    ensures d <= k < |s| && s[k] == p[d]
  {
    PermutesSuffix(s, p, d);
    assert p[d..][0] in multiset(p[d..]);
    assert p[d] in s[d..];
    var i :| 0 <= i < |s[d..]| && s[d..][i] == p[d];
    k := d + i;
  }

  // ---------------------------------------------------------------- sorted strings

  ghost predicate Descending(s: string) {
    forall i, j :: 0 <= i < j < |s| ==> s[i] >= s[j]
  }

  ghost predicate Ascending(s: string) {
    forall i, j :: 0 <= i < j < |s| ==> s[i] <= s[j]
  }

  lemma DescendingLast(s: string)
    requires s != []
    ensures Descending(s[|s| - 1..])
  {
  }

  lemma DescendingFrom(s: string, i: nat)
    requires i + 1 < |s| && Descending(s[i + 1..]) && s[i] >= s[i + 1]
    ensures Descending(s[i..])
  {
    var tail := s[i + 1..];
    assert s[i..] == [s[i]] + tail && tail[0] == s[i + 1];
  }

  /** A descending string is the largest of its permutations. */
  lemma DescendingIsLargest(s: string, p: string)
    requires Descending(s) && Permutes(s, p)
    ensures |s| == |p| && !LexLess(s, p)
  {
    hide FirstDiff;
    PermutesLength(s, p);
    if FirstDiff(s, p) < |s| {
      var k := FoundLater(s, p, FirstDiff(s, p));
    }
  }

  /** An ascending string is the smallest of its permutations. */
  lemma AscendingIsSmallest(s: string, p: string)
    requires Ascending(s) && Permutes(s, p)
    ensures |s| == |p| && !LexLess(p, s)
  {
    hide FirstDiff;
    PermutesLength(s, p);
    if FirstDiff(p, s) < |s| {
      var k := FoundLater(s, p, FirstDiff(p, s));
    }
  }

  function Reversed(s: string): (r: string)
    ensures |r| == |s| && forall i :: 0 <= i < |s| ==> r[i] == s[|s| - 1 - i]
  {
    seq(|s|, i requires 0 <= i < |s| => s[|s| - 1 - i])
  }

  lemma {:induction false} ReversedPermutes(s: string)
    ensures Permutes(Reversed(s), s)
  {
    if s != [] {
      ReversedPermutes(s[1..]);
      assert Reversed(s) == Reversed(s[1..]) + [s[0]];
      assert s == [s[0]] + s[1..];
    }
  }

  // ---------------------------------------------------------------- the step

  function Swapped(s: string, v: nat, j: nat): string
    requires v < |s| && j < |s|
  {
    s[v := s[j]][j := s[v]]
  }

  /** Swap the pivot `v` with `j`, then reverse everything behind the pivot. */
  function Successor(s: string, v: nat, j: nat): (r: string)
    requires v < |s| && j < |s|
    ensures |r| == |s|
  {
    var t := Swapped(s, v, j);
    t[..v + 1] + Reversed(t[v + 1..])
  }

  /** `v` is the rightmost position with a larger neighbour, `j` the rightmost larger than `v`. */
  ghost predicate PivotAndSwap(s: string, v: nat, j: nat) {
    && v < j < |s|
    && Descending(s[v + 1..])
    && s[v] < s[j]
    && forall k :: j < k < |s| ==> s[k] <= s[v]
  }

  lemma PivotBeforeSwap(s: string, v: nat, j: nat)
    requires PivotAndSwap(s, v, j)
    ensures v < j < |s|
  {
  }

  /** Behind the pivot, the swap leaves a descending string. */
  lemma SwapDescends(s: string, v: nat, j: nat, a: nat, b: nat)
    requires PivotAndSwap(s, v, j) && v < a < b < |s|
    ensures Swapped(s, v, j)[a] >= Swapped(s, v, j)[b]
  {
    var tail := s[v + 1..];
    assert tail[a - v - 1] == s[a] && tail[b - v - 1] == s[b] && tail[j - v - 1] == s[j];
  }

  lemma SuccessorShape(s: string, v: nat, j: nat)
    requires PivotAndSwap(s, v, j)
    ensures var r := Successor(s, v, j);
            Agree(r, s, v) && r[v] == s[j] && Ascending(r[v + 1..]) && Permutes(r, s)
  {
    hide Descending;
    var t, r := Swapped(s, v, j), Successor(s, v, j);
    var tail := t[v + 1..];
    forall a, b | v < a < b < |s| ensures t[a] >= t[b] {
      SwapDescends(s, v, j, a, b);
    }
    SuccessorPermutes(s, v, j);
    assert r[v + 1..] == Reversed(tail);
  }

  lemma SuccessorPermutes(s: string, v: nat, j: nat)
    requires v < j < |s|
    ensures Permutes(Successor(s, v, j), s)
  {
    var t := Swapped(s, v, j);
    assert multiset(t) == multiset(s);
    ReversedPermutes(t[v + 1..]);
    assert t == t[..v + 1] + t[v + 1..];
    assert multiset(t) == multiset(t[..v + 1]) + multiset(t[v + 1..]);
  }

  /** The successor is greater than `s`, and no permutation of `s` lies between the two. */
  lemma SuccessorIsLeast(s: string, v: nat, j: nat, p: string)
    requires PivotAndSwap(s, v, j) && Permutes(p, s)
    ensures |p| == |s| && LexLess(s, Successor(s, v, j))
    ensures LexLess(s, p) ==> !LexLess(p, Successor(s, v, j))
  {
    hide FirstDiff, Successor;
    var r := Successor(s, v, j);
    SuccessorShape(s, v, j);
    DecidedAt(s, r, v);
    PermutesLength(p, s);
    if LexLess(s, p) {
      DiffersByPivot(s, v, j, p);
      var d := FirstDiff(s, p);
      if d < v {
        DecidedAt(p, r, d);
      } else {
        AtPivot(s, v, j, p);
      }
    }
  }

  /** A greater permutation differs from `s` at the pivot or before it. */
  lemma DiffersByPivot(s: string, v: nat, j: nat, p: string)
    requires PivotAndSwap(s, v, j) && Permutes(p, s) && |p| == |s| && LexLess(s, p)
    ensures FirstDiff(s, p) <= v
  {
    hide FirstDiff, Descending, LexLess;
    if FirstDiff(s, p) > v {
      PermutesSuffix(s, p, v + 1);
      TailDecides(s, p, v + 1);
      DescendingIsLargest(s[v + 1..], p[v + 1..]);
    }
  }

  /** Among the greater permutations that first differ at the pivot, none is below the successor. */
  lemma AtPivot(s: string, v: nat, j: nat, p: string)
    requires PivotAndSwap(s, v, j) && Permutes(p, s) && |p| == |s|
    requires LexLess(s, p) && FirstDiff(s, p) == v
    ensures !LexLess(p, Successor(s, v, j))
  {
    hide FirstDiff, Successor, Descending, Ascending;
    var r := Successor(s, v, j);
    SuccessorShape(s, v, j);
    PivotIsNext(s, v, j, p);
    if p[v] > s[j] {
      DecidedAt(p, r, v);
    } else {
      SamePivot(p, r, v);
    }
  }

  /** With the rest ascending, a permutation that agrees up to the pivot is not smaller. */
  lemma SamePivot(p: string, r: string, v: nat)
    requires |p| == |r| && v < |p| && Permutes(p, r) && Agree(p, r, v) && p[v] == r[v] && Ascending(r[v + 1..])
    ensures !LexLess(p, r)
  {
    hide FirstDiff, LexLess, Ascending;
    PermutesSuffix(r, p, v + 1);
    AscendingIsSmallest(r[v + 1..], p[v + 1..]);
    TailDecides(p, r, v + 1);
  }

  /** The character at `j` is the smallest one behind the pivot that is larger than it. */
  lemma PivotIsNext(s: string, v: nat, j: nat, p: string)
    requires PivotAndSwap(s, v, j) && Permutes(p, s) && |p| == |s|
    requires Agree(p, s, v) && p[v] > s[v]
    ensures p[v] >= s[j]
  {
    var k := FoundLater(s, p, v);
    var tail := s[v + 1..];
    assert k > v ==> tail[k - v - 1] == s[k];
    assert tail[j - v - 1] == s[j];
  }

  // ---------------------------------------------------------------- the program on strings

  /** `r` is the least permutation of `s` that is greater than `s`. */
  ghost predicate IsNext(s: string, r: string) {
    && |r| == |s| && Permutes(r, s) && LexLess(s, r)
    && forall p: string :: |p| == |s| && Permutes(p, s) && LexLess(s, p) ==> !LexLess(p, r)
  }

  ghost predicate NoneGreater(s: string) {
    forall p: string :: |p| == |s| && Permutes(p, s) ==> !LexLess(s, p)
  }

  lemma SuccessorIsNext(s: string, v: nat, j: nat)
    requires PivotAndSwap(s, v, j)
    ensures IsNext(s, Successor(s, v, j))
  {
    SuccessorShape(s, v, j);
    SuccessorIsLeast(s, v, j, s);
    forall p: string | |p| == |s| && Permutes(p, s) && LexLess(s, p) ensures !LexLess(p, Successor(s, v, j)) {
      SuccessorIsLeast(s, v, j, p);
    }
  }

  lemma LargestHasNoNext(s: string)
    requires Descending(s)
    ensures NoneGreater(s)
  {
    forall p: string | |p| == |s| && Permutes(p, s) ensures !LexLess(s, p) {
      DescendingIsLargest(s, p);
    }
  }

  /** The least greater permutation, or `None` exactly when there is no greater one. */
  method NextPermutation(N: string) returns (r: Option<string>)
    requires N != []
    ensures r.Some? ==> IsNext(N, r.value)
    ensures r.None? ==> NoneGreater(N)
  {
    hide IsNext, NoneGreater, Descending;
    DescendingLast(N);
    if |N| == 1 {
      assert N[0..] == N;
      LargestHasNoNext(N);
      return None;
    }
    var digits := N;
    var i := |digits| - 1;
    while i > 0 && !(digits[i] > digits[i - 1])
      invariant 0 <= i < |N|
      invariant Descending(N[i..])
    {
      DescendingFrom(N, i - 1);
      i := i - 1;
    }
    if i == 0 {
      assert N[0..] == N;
      LargestHasNoNext(N);
      return None;
    }
    var j := |digits| - 1;
    while j >= i && !(digits[i - 1] < digits[j])
      invariant i <= j < |N|
      invariant forall k :: j < k < |N| ==> N[k] <= N[i - 1]
    {
      j := j - 1;
    }
    digits := digits[i - 1 := digits[j]][j := digits[i - 1]];
    digits := digits[..i] + Reversed(digits[i..]);
    SuccessorIsNext(N, i - 1, j);
    return Some(digits);
  }

  // ---------------------------------------------------------------- decimal numbers

  const INT_MAX: int := 0x7fff_ffff
  const INT_MIN: int := -0x8000_0000

  predicate IsDigits(s: string) {
    s != [] && forall i :: 0 <= i < |s| ==> '0' <= s[i] <= '9'
  }

  function DigitOf(c: char): (d: nat)
    requires '0' <= c <= '9'
    ensures d < 10
  {
    c as int - '0' as int
  }

  function CharOf(d: nat): (c: char)
    requires d < 10
    ensures '0' <= c <= '9' && DigitOf(c) == d
  {
    ('0' as int + d) as char
  }

  /** The decimal digits of a number, without leading zeros. */
  function Digits(n: nat): (s: string)
    ensures IsDigits(s) && (n > 0 ==> s[0] != '0')
  {
    if n < 10 then [CharOf(n)] else Digits(n / 10) + [CharOf(n % 10)]
  }

  function Value(s: string): nat
    requires IsDigits(s)
  {
    if |s| == 1 then DigitOf(s[0]) else 10 * Value(s[..|s| - 1]) + DigitOf(s[|s| - 1])
  }

  lemma {:induction false} ValueOfDigits(n: nat)
    ensures Value(Digits(n)) == n
  {
    if n >= 10 {
      ValueOfDigits(n / 10);
      assert Digits(n)[..|Digits(n)| - 1] == Digits(n / 10);
    }
  }

  lemma {:induction false} DigitsOfValue(s: string)
    requires IsDigits(s) && (|s| == 1 || s[0] != '0')
    ensures Digits(Value(s)) == s
    ensures s[0] != '0' ==> Value(s) > 0
  {
    if |s| > 1 {
      var front := s[..|s| - 1];
      DigitsOfValue(front);
      assert s == front + [s[|s| - 1]];
      assert front[0] == s[0];
    }
  }

  /** On digit strings of equal length, lexicographic and numeric order are the same. */
  lemma {:induction false} LexIsNumeric(a: string, b: string)
    requires IsDigits(a) && IsDigits(b) && |a| == |b|
    ensures LexLess(a, b) <==> Value(a) < Value(b)
    ensures a == b <==> Value(a) == Value(b)
  {
    hide LexLess, Value;
    var n := |a| - 1;
    DecidedByLast(a, b);
    assert a == a[..n] + [a[n]] && b == b[..n] + [b[n]];
    ValueSplit(a);
    ValueSplit(b);
    if n > 0 {
      LexIsNumeric(a[..n], b[..n]);
    }
  }

  lemma ValueSplit(s: string)
    requires IsDigits(s)
    ensures var n := |s| - 1;
            Value(s) == DigitOf(s[n]) + if n == 0 then 0 else 10 * Value(s[..n])
  {
  }

  lemma DecidedByLast(a: string, b: string)
    requires |a| == |b| > 0
    ensures var n := |a| - 1;
            && (LexLess(a, b) <==> LexLess(a[..n], b[..n]) || (a[..n] == b[..n] && a[n] < b[n]))
            && (n == 0 ==> !LexLess(a[..n], b[..n]))
  {
    hide FirstDiff;
    var n := |a| - 1;
    var d := FirstDiff(a[..n], b[..n]);
    if d < n {
      assert a[d] == a[..n][d] && b[d] == b[..n][d];
      assert Agree(a, b, d);
      DecidedAt(a, b, d);
    } else {
      assert a[..n] == b[..n];
      assert Agree(a, b, n);
      var e := FirstDiff(a, b);
      if a[n] != b[n] {
        DecidedAt(a, b, n);
      }
    }
  }

  ghost predicate SameDigits(m: nat, n: nat) {
    multiset(Digits(m)) == multiset(Digits(n))
  }

  lemma DigitStringsKeepDigits(a: string, b: string)
    requires IsDigits(a) && Permutes(a, b)
    ensures IsDigits(b)
  {
    PermutesLength(a, b);
    forall i | 0 <= i < |b| ensures '0' <= b[i] <= '9' {
      assert b[i] in multiset(a);
    }
  }

  /** The least greater permutation of a number's digits is its next greater number with the same digits. */
  lemma NextNumber(n: nat, r: string)
    requires IsNext(Digits(n), r)
    ensures IsDigits(r) && IsNextNumber(n, Value(r))
  {
    hide Value, SameDigits, IsNext, IsDigits;
    GreaterNumber(n, r);
    forall m: nat | n < m < Value(r) ensures !SameDigits(m, n) {
      NoneBetween(n, r, m);
    }
  }

  lemma GreaterNumber(n: nat, r: string)
    requires IsNext(Digits(n), r)
    ensures IsDigits(r) && Value(r) > n && SameDigits(Value(r), n)
  {
    hide LexLess, Value;
    DigitStringsKeepDigits(Digits(n), r);
    LexIsNumeric(Digits(n), r);
    ValueOfDigits(n);
    NoLeadingZero(n, r);
    DigitsOfValue(r);
  }

  lemma NoneBetween(n: nat, r: string, m: nat)
    requires IsNext(Digits(n), r) && IsDigits(r) && n < m < Value(r)
    ensures !SameDigits(m, n)
  {
    hide LexLess, Value, Digits;
    if SameDigits(m, n) {
      PermutesLength(Digits(m), Digits(n));
      ValueOfDigits(n);
      ValueOfDigits(m);
      LexIsNumeric(Digits(n), Digits(m));
      LexIsNumeric(Digits(m), r);
    }
  }

  lemma NoLeadingZero(n: nat, r: string)
    requires |r| == |Digits(n)| && LexLess(Digits(n), r) && IsDigits(r)
    ensures |r| == 1 || r[0] != '0'
  {
    hide FirstDiff;
    var d := FirstDiff(Digits(n), r);
    assert d > 0 ==> r[0] == Digits(n)[0];
    assert |r| > 1 ==> n >= 10;
  }

  lemma NoGreaterNumber(n: nat)
    requires NoneGreater(Digits(n))
    ensures Largest(n)
  {
    hide LexLess, Value;
    ValueOfDigits(n);
    forall m: nat | m > n ensures !SameDigits(m, n) {
      if SameDigits(m, n) {
        PermutesLength(Digits(m), Digits(n));
        ValueOfDigits(m);
        LexIsNumeric(Digits(n), Digits(m));
      }
    }
  }

  // ---------------------------------------------------------------- numbers with a sign

  function ToString(n: int): (s: string)
    ensures s != []
  {
    if n < 0 then ['-'] + Digits(-n) else Digits(n)
  }

  /** How many digits a string starts with. */
  function DigitRun(s: string): (k: nat)
    ensures k <= |s| && (k > 0 ==> IsDigits(s[..k]))
    ensures k < |s| ==> !('0' <= s[k] <= '9')
  {
    if s == [] || !('0' <= s[0] <= '9') then 0 else 1 + DigitRun(s[1..])
  }

  predicate Parses(s: string) {
    s != [] && DigitRun(if s[0] == '-' then s[1..] else s) > 0
  }

  /** Reads a sign and as many digits as follow it, and ignores the rest. */
  function Stol(s: string): int
    requires Parses(s)
  {
    if s[0] == '-' then 0 - Value(s[1..][..DigitRun(s[1..])]) else Value(s[..DigitRun(s)])
  }

  /** The conversion of a wider integer to a 32-bit int. */
  function Narrow(x: int): (r: int)
    ensures INT_MIN <= r <= INT_MAX
    ensures INT_MIN <= x <= INT_MAX ==> r == x
  {
    (x - INT_MIN) % 0x1_0000_0000 + INT_MIN
  }

  lemma StolOfDigits(t: string)
    requires IsDigits(t)
    ensures Parses(t) && Stol(t) == Value(t)
    ensures Parses(['-'] + t) && Stol(['-'] + t) == 0 - Value(t)
  {
    assert t[..|t|] == t;
    assert (['-'] + t)[1..] == t;
  }

  /** `m` is the next number after `n` with the same digits. */
  ghost predicate IsNextNumber(n: nat, m: nat) {
    m > n && SameDigits(m, n) && forall k: nat :: n < k < m ==> !SameDigits(k, n)
  }

  /** No greater number has the digits of `n`. */
  ghost predicate Largest(n: nat) {
    forall m: nat :: m > n ==> !SameDigits(m, n)
  }

  lemma NextNotLargest(n: nat, m: nat)
    requires IsNextNumber(n, m)
    ensures !Largest(n)
  {
  }

  /** A pivot behind the sign is the pivot of the digits, and the sign stays in front. */
  lemma SignStays(d: string, v: nat, j: nat)
    requires PivotAndSwap(['-'] + d, v + 1, j + 1)
    ensures PivotAndSwap(d, v, j) && Successor(['-'] + d, v + 1, j + 1) == ['-'] + Successor(d, v, j)
  {
    hide Successor, Descending;
    var s := ['-'] + d;
    assert s[v + 2..] == d[v + 1..];
    forall k | j < k < |d| ensures d[k] <= d[v] {
      assert s[k + 1] <= s[v + 1];
    }
    SignInFront(d, v, j);
  }

  lemma SignInFront(d: string, v: nat, j: nat)
    requires v < |d| && j < |d|
    ensures Successor(['-'] + d, v + 1, j + 1) == ['-'] + Successor(d, v, j)
  {
    hide Swapped, Reversed;
    var s, t := Swapped(['-'] + d, v + 1, j + 1), Swapped(d, v, j);
    SwapInFront(d, v, j);
    assert s[v + 2..] == t[v + 1..];
    assert s[..v + 2] == ['-'] + t[..v + 1];
  }

  lemma SwapInFront(d: string, v: nat, j: nat)
    requires v < |d| && j < |d|
    ensures |Swapped(d, v, j)| == |d|
    ensures Swapped(['-'] + d, v + 1, j + 1) == ['-'] + Swapped(d, v, j)
  {
  }

  /** A pivot at the sign swaps it with the last digit, which then is all that can be read. */
  lemma SignMoves(d: string, j: nat)
    requires IsDigits(d) && PivotAndSwap(['-'] + d, 0, j)
    ensures Descending(d)
    ensures var r := Successor(['-'] + d, 0, j);
            Parses(r) && Stol(r) == DigitOf(d[|d| - 1])
  {
    var s := ['-'] + d;
    assert s[1..] == d;
    assert s[|d|] > s[0];
    assert j == |d|;
    var t, r := Swapped(s, 0, j), Successor(s, 0, j);
    assert t[1..][|d| - 1] == '-';
    assert r[0] == d[|d| - 1] && r[1] == '-';
    assert DigitRun(r[1..]) == 0;
    assert r[..1] == [d[|d| - 1]];
  }

  lemma LastDigit(n: nat)
    ensures DigitOf(Digits(n)[|Digits(n)| - 1]) == n % 10
  {
  }

  /** The next greater number with the same digits; -1 exactly if there is none that fits an int. */
  ghost predicate NextInt(n: nat, r: int) {
    if r == -1 then forall m: nat :: n < m <= INT_MAX ==> !SameDigits(m, n)
    else 0 <= r <= INT_MAX && IsNextNumber(n, r)
  }

  /** The negative of the next greater number, cut down to an int; the last digit alone if there is none. */
  ghost predicate SignedNext(n: nat, r: int) {
    if Largest(n) then r == n % 10 else exists m: nat :: IsNextNumber(n, m) && r == Narrow(0 - m)
  }

  ghost predicate Outcome(n: int, r: int) {
    if n >= 0 then NextInt(n, r) else SignedNext(-n, r)
  }

  function IntOf(x: int): int {
    if x > INT_MAX then -1 else Narrow(x)
  }

  lemma PositiveOutcome(n: nat, v: nat, j: nat)
    requires PivotAndSwap(Digits(n), v, j)
    ensures var r := Successor(Digits(n), v, j);
            Parses(r) && NextInt(n, IntOf(Stol(r)))
  {
    hide Digits, Value, LexLess, SameDigits, Permutes, Descending, Successor, Stol, Parses, IsDigits, IsNext;
    var t := Successor(Digits(n), v, j);
    SuccessorIsNext(Digits(n), v, j);
    NextNumber(n, t);
    StolOfDigits(t);
  }

  lemma NegativeOutcome(n: nat, v: nat, j: nat)
    requires PivotAndSwap(['-'] + Digits(n), v, j)
    ensures var r := Successor(['-'] + Digits(n), v, j);
            Parses(r) && SignedNext(n, IntOf(Stol(r)))
  {
    hide Digits, PivotAndSwap, Successor, Stol, Parses, IntOf, SignedNext;
    PivotBeforeSwap(['-'] + Digits(n), v, j);
    if v > 0 {
      SignStays(Digits(n), v - 1, j - 1);
      PivotBeforeSwap(Digits(n), v - 1, j - 1);
      SignedOutcome(n, v - 1, j - 1);
    } else {
      LastDigitOutcome(n, j);
    }
  }

  lemma LastDigitOutcome(n: nat, j: nat)
    requires PivotAndSwap(['-'] + Digits(n), 0, j)
    ensures var r := Successor(['-'] + Digits(n), 0, j);
            Parses(r) && SignedNext(n, IntOf(Stol(r)))
  {
    hide Digits, Value, LexLess, Descending, Successor, Stol, Parses, IsDigits, Largest, NoneGreater;
    SignMoves(Digits(n), j);
    LargestHasNoNext(Digits(n));
    NoGreaterNumber(n);
    LastDigit(n);
  }

  lemma SignedOutcome(n: nat, v: nat, j: nat)
    requires PivotAndSwap(Digits(n), v, j)
    ensures var r := ['-'] + Successor(Digits(n), v, j);
            Parses(r) && SignedNext(n, IntOf(Stol(r)))
  {
    hide Digits, Value, LexLess, PivotAndSwap, Successor, Stol, Parses, IsDigits, IsNext, Largest, IsNextNumber, Narrow;
    PivotBeforeSwap(Digits(n), v, j);
    var t := Successor(Digits(n), v, j);
    SuccessorIsNext(Digits(n), v, j);
    NextNumber(n, t);
    StolOfDigits(t);
    NextNotLargest(n, Value(t));
  }

  lemma SuccessorOutcome(n: int, v: nat, j: nat)
    requires PivotAndSwap(ToString(n), v, j)
    ensures var r := Successor(ToString(n), v, j);
            Parses(r) && Outcome(n, IntOf(Stol(r)))
  {
    hide PivotAndSwap, Successor, Stol, Parses, IntOf, NextInt, SignedNext, Digits;
    if n >= 0 {
      PositiveOutcome(n, v, j);
    } else {
      NegativeOutcome(-n, v, j);
    }
  }

  lemma SignAscends(n: nat)
    ensures !Descending(['-'] + Digits(n))
  {
    var s := ['-'] + Digits(n);
    assert s[0] < s[1];
  }

  lemma DescendingOutcome(n: int)
    requires Descending(ToString(n))
    ensures n >= 0 && Outcome(n, -1)
  {
    if n < 0 {
      SignAscends(-n);
      assert false;
    }
    LargestHasNoNext(Digits(n));
    NoGreaterNumber(n);
  }

  /**
   For a number from 0 on: the next greater one with the same digits, or -1 exactly when there is
   none that fits an int. Below 0 the sign takes part: the result is the negative of the next
   greater number, cut down to an int, or the last digit alone if there is no greater one.
   */
  method NextGreaterElement(n: int) returns (r: int)
    requires INT_MIN <= n <= INT_MAX
    ensures Outcome(n, r)
  {
    hide ToString, Outcome, Descending, PivotAndSwap, Narrow, Stol, Parses;
    var digits := ToString(n);
    ghost var N := digits;
    var pivotIndex := FindPivot(digits);
    if pivotIndex < 0 {
      DescendingOutcome(n);
      return -1;
    }
    var swapIndex := FindSwap(digits, pivotIndex);
    PivotBeforeSwap(N, pivotIndex, swapIndex);
    digits := digits[pivotIndex := digits[swapIndex]][swapIndex := digits[pivotIndex]];
    digits := digits[..pivotIndex + 1] + Reversed(digits[pivotIndex + 1..]);
    SuccessorOutcome(n, pivotIndex, swapIndex);
    var result := Stol(digits);
    return if result > INT_MAX then -1 else Narrow(result);
  }

  /** The rightmost digit that is smaller than its successor; -1 if the digits only descend. */
  method FindPivot(digits: string) returns (pivotIndex: int)
    requires digits != []
    ensures -1 <= pivotIndex < |digits| - 1
    ensures pivotIndex == -1 ==> Descending(digits)
    ensures pivotIndex >= 0 ==> digits[pivotIndex] < digits[pivotIndex + 1] && Descending(digits[pivotIndex + 1..])
  {
    hide Descending;
    pivotIndex := |digits| - 2;
    DescendingLast(digits);
    while pivotIndex >= 0 && digits[pivotIndex] >= digits[pivotIndex + 1]
      invariant -1 <= pivotIndex <= |digits| - 2
      invariant Descending(digits[pivotIndex + 1..])
    {
      DescendingFrom(digits, pivotIndex);
      pivotIndex := pivotIndex - 1;
    }
    assert digits[0..] == digits;
  }

  /** The rightmost digit behind the pivot that is larger than it. */
  method FindSwap(digits: string, pivotIndex: nat) returns (swapIndex: nat)
    requires pivotIndex < |digits| - 1 && digits[pivotIndex] < digits[pivotIndex + 1]
    requires Descending(digits[pivotIndex + 1..])
    ensures PivotAndSwap(digits, pivotIndex, swapIndex)
  {
    hide Descending;
    swapIndex := |digits| - 1;
    while digits[pivotIndex] >= digits[swapIndex]
      invariant pivotIndex < swapIndex < |digits|
      invariant forall k :: swapIndex < k < |digits| ==> digits[k] <= digits[pivotIndex]
      decreases swapIndex
    {
      swapIndex := swapIndex - 1;
    }
  }
}
