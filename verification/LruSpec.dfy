/**
 The least-recently-used policy on its own: a bounded sequence of entries with
 distinct keys, most recently used first. Both caches are proved to refine it.
 */
module LruSpec {
  import opened LinearProbing

  datatype Entry<V> = Entry(key: Key, value: V)

  /** What a cache call does to the policy state. A rejected call is a `Skip`. */
  datatype Op<V> = Put(entry: Entry<V>) | Touch(key: Key) | Remove(key: Key) | Skip

  /** The position of `key`, or `|s|`. */
  function Find<V>(s: seq<Entry<V>>, key: Key): (r: nat)
    ensures r <= |s|
    ensures r < |s| ==> s[r].key == key
    ensures forall j :: 0 <= j < r ==> s[j].key != key
  {
    if s == [] || s[0].key == key then 0 else 1 + Find(s[1..], key)
  }

  predicate Has<V>(s: seq<Entry<V>>, key: Key) {
    Find(s, key) < |s|
  }

  /** `s` without the entry of `key`, if it has one. */
  function Without<V>(s: seq<Entry<V>>, key: Key): seq<Entry<V>> {
    var f := Find(s, key);
    if f < |s| then s[..f] + s[f + 1..] else s
  }

  function Apply<V>(s: seq<Entry<V>>, cap: nat, op: Op<V>): seq<Entry<V>>
    requires cap >= 1
  {
    match op
    case Put(e) =>
      if Has(s, e.key) then [e] + Without(s, e.key)
      else if |s| < cap then [e] + s
      else [e] + s[..cap - 1]
    case Touch(k) => if Has(s, k) then [s[Find(s, k)]] + Without(s, k) else s
    case Remove(k) => Without(s, k)
    case Skip => s
  }

  function Run<V>(cap: nat, ops: seq<Op<V>>): seq<Entry<V>>
    requires cap >= 1
  {
    if ops == [] then [] else Apply(Run(cap, ops[..|ops| - 1]), cap, ops[|ops| - 1])
  }

  ghost predicate DistinctEntries<V>(s: seq<Entry<V>>) {
    forall a, b :: 0 <= a < b < |s| ==> s[a].key != s[b].key
  }

  ghost predicate WellFormed<V>(s: seq<Entry<V>>, cap: nat) {
    |s| <= cap && DistinctEntries(s)
  }

  // ---------------------------------------------------------------- invariants of runs

  /** What remains keeps its order. */
  lemma WithoutAt<V>(s: seq<Entry<V>>, key: Key, j: nat)
    requires j < |Without(s, key)|
    ensures var k := if j < Find(s, key) then j else j + 1;
            k < |s| && Without(s, key)[j] == s[k]
  {
    hide Find;
  }

  lemma WithoutSize<V>(s: seq<Entry<V>>, key: Key)
    ensures |Without(s, key)| == if Has(s, key) then |s| - 1 else |s|
  {
    hide Find;
  }

  lemma WithoutDistinct<V>(s: seq<Entry<V>>, key: Key)
    requires DistinctEntries(s)
    ensures DistinctEntries(Without(s, key))
    ensures forall j :: 0 <= j < |Without(s, key)| ==> Without(s, key)[j].key != key && Without(s, key)[j] in s
  {
    hide Find, Without;
    var w := Without(s, key);
    forall a, b | 0 <= a < b < |w| ensures w[a].key != w[b].key {
      WithoutAt(s, key, a);
      WithoutAt(s, key, b);
    }
    forall j | 0 <= j < |w| ensures w[j].key != key && w[j] in s {
      WithoutAt(s, key, j);
    }
  }

  lemma ApplyWellFormed<V>(s: seq<Entry<V>>, cap: nat, op: Op<V>)
    requires cap >= 1 && WellFormed(s, cap)
    ensures WellFormed(Apply(s, cap, op), cap)
  {
    hide Find, Without;
    match op
    case Put(e) => WithoutDistinct(s, e.key); WithoutSize(s, e.key);
    case Touch(k) => WithoutDistinct(s, k); WithoutSize(s, k);
    case Remove(k) => WithoutDistinct(s, k); WithoutSize(s, k);
    case Skip =>
  }

  /** Every run keeps the keys distinct and the size within the capacity. */
  lemma {:induction false} RunWellFormed<V>(cap: nat, ops: seq<Op<V>>)
    requires cap >= 1
    ensures WellFormed(Run(cap, ops), cap)
  {
    if ops != [] {
      RunWellFormed(cap, ops[..|ops| - 1]);
      ApplyWellFormed(Run(cap, ops[..|ops| - 1]), cap, ops[|ops| - 1]);
    }
  }

  // ---------------------------------------------------------------- recency

  predicate Uses<V>(op: Op<V>, key: Key) {
    (op.Put? && op.entry.key == key) || (op.Touch? && op.key == key)
  }

  /** One more than the index of the last operation that uses `key`; 0 if there is none. */
  function LastUse<V>(ops: seq<Op<V>>, key: Key): (t: nat)
    ensures t <= |ops|
  {
    if ops == [] then 0
    else if Uses(ops[|ops| - 1], key) then |ops|
    else LastUse(ops[..|ops| - 1], key)
  }

  /** One more than the index of the last `Put` of `key`; 0 if there is none. */
  function LastPut<V>(ops: seq<Op<V>>, key: Key): (t: nat)
    ensures t <= |ops|
    ensures t > 0 ==> ops[t - 1].Put? && ops[t - 1].entry.key == key
  {
    if ops == [] then 0
    else if ops[|ops| - 1].Put? && ops[|ops| - 1].entry.key == key then |ops|
    else LastPut(ops[..|ops| - 1], key)
  }

  ghost predicate ByRecency<V>(s: seq<Entry<V>>, ops: seq<Op<V>>) {
    forall a, b :: 0 <= a < b < |s| ==> LastUse(ops, s[a].key) > LastUse(ops, s[b].key)
  }

  /** An entry carries the value of the last `Put` of its key. */
  ghost predicate Current<V>(e: Entry<V>, ops: seq<Op<V>>) {
    LastPut(ops, e.key) > 0 && ops[LastPut(ops, e.key) - 1].entry == e
  }

  /** Listed by last use, and every entry up to date. */
  ghost predicate Faithful<V>(s: seq<Entry<V>>, ops: seq<Op<V>>) {
    && ByRecency(s, ops)
    && forall j :: 0 <= j < |s| ==> Current(s[j], ops)
  }

  lemma WithoutFaithful<V>(s: seq<Entry<V>>, key: Key, ops: seq<Op<V>>)
    requires Faithful(s, ops)
    ensures Faithful(Without(s, key), ops)
  {
    hide Find, Without, LastUse, LastPut, Current;
    var w := Without(s, key);
    forall a, b | 0 <= a < b < |w| ensures LastUse(ops, w[a].key) > LastUse(ops, w[b].key) {
      WithoutAt(s, key, a);
      WithoutAt(s, key, b);
    }
    forall j | 0 <= j < |w| ensures Current(w[j], ops) {
      WithoutAt(s, key, j);
    }
  }

  /** An operation that uses none of its keys leaves a sequence faithful. */
  lemma AgedFaithful<V>(s: seq<Entry<V>>, ops: seq<Op<V>>)
    requires ops != [] && Faithful(s, ops[..|ops| - 1])
    requires forall j :: 0 <= j < |s| ==> !Uses(ops[|ops| - 1], s[j].key)
    ensures Faithful(s, ops)
  {
    var before := ops[..|ops| - 1];
    forall j | 0 <= j < |s|
      ensures LastUse(ops, s[j].key) == LastUse(before, s[j].key) && Current(s[j], ops)
    {
      assert before[LastPut(before, s[j].key) - 1] == ops[LastPut(before, s[j].key) - 1];
    }
  }

  /** The entry just used goes in front. */
  lemma FrontFaithful<V>(e: Entry<V>, rest: seq<Entry<V>>, ops: seq<Op<V>>)
    requires ops != [] && Uses(ops[|ops| - 1], e.key) && Current(e, ops)
    requires Faithful(rest, ops[..|ops| - 1])
    requires forall j :: 0 <= j < |rest| ==> rest[j].key != e.key
    ensures Faithful([e] + rest, ops)
  {
    AgedFaithful(rest, ops);
    forall j | 0 <= j < |rest| ensures LastUse(ops, rest[j].key) < LastUse(ops, e.key) {
      assert !Uses(ops[|ops| - 1], rest[j].key);
    }
  }

  lemma LastPutIsLast<V>(ops: seq<Op<V>>)
    requires ops != [] && ops[|ops| - 1].Put?
    ensures Current(ops[|ops| - 1].entry, ops)
  {
  }

  lemma PutFaithful<V>(s: seq<Entry<V>>, cap: nat, e: Entry<V>, ops: seq<Op<V>>)
    requires cap >= 1 && ops != [] && ops[|ops| - 1] == Put(e)
    requires WellFormed(s, cap) && Faithful(s, ops[..|ops| - 1])
    ensures Faithful(Apply(s, cap, Put(e)), ops)
  {
    hide Without, Find, LastUse, LastPut;
    var before := ops[..|ops| - 1];
    WithoutFaithful(s, e.key, before);
    WithoutDistinct(s, e.key);
    LastPutIsLast(ops);
    var rest := if Has(s, e.key) then Without(s, e.key) else if |s| < cap then s else s[..cap - 1];
    FrontFaithful(e, rest, ops);
  }

  lemma TouchFaithful<V>(s: seq<Entry<V>>, cap: nat, k: Key, ops: seq<Op<V>>)
    requires cap >= 1 && ops != [] && ops[|ops| - 1] == Op<V>.Touch(k)
    requires WellFormed(s, cap) && Faithful(s, ops[..|ops| - 1])
    ensures Faithful(Apply(s, cap, Op<V>.Touch(k)), ops)
  {
    var before := ops[..|ops| - 1];
    if Has(s, k) {
      WithoutFaithful(s, k, before);
      WithoutDistinct(s, k);
      hide Without, Find;
      assert before[LastPut(before, k) - 1] == ops[LastPut(before, k) - 1];
      FrontFaithful(s[Find(s, k)], Without(s, k), ops);
    } else {
      AgedFaithful(s, ops);
    }
  }

  lemma StepFaithful<V>(s: seq<Entry<V>>, cap: nat, ops: seq<Op<V>>)
    requires cap >= 1 && ops != [] && WellFormed(s, cap) && Faithful(s, ops[..|ops| - 1])
    ensures Faithful(Apply(s, cap, ops[|ops| - 1]), ops)
  {
    match ops[|ops| - 1]
    case Put(e) => PutFaithful(s, cap, e, ops);
    case Touch(k) => TouchFaithful(s, cap, k, ops);
    case Remove(k) =>
      WithoutFaithful(s, k, ops[..|ops| - 1]);
      hide Without;
      AgedFaithful(Without(s, k), ops);
    case Skip =>
      AgedFaithful(s, ops);
  }

  /**
   After every run, from most to least recently used, the cache lists its keys by
   their last use, and every key has the value last put for it.
   */
  lemma {:induction false} RunFaithful<V>(cap: nat, ops: seq<Op<V>>)
    requires cap >= 1
    ensures Faithful(Run(cap, ops), ops)
  {
    if ops != [] {
      var before := ops[..|ops| - 1];
      RunFaithful(cap, before);
      RunWellFormed(cap, before);
      StepFaithful(Run(cap, before), cap, ops);
    }
  }

  // ---------------------------------------------------------------- which keys are there

  lemma HasIffListed<V>(s: seq<Entry<V>>, key: Key)
    ensures Has(s, key) <==> exists j :: 0 <= j < |s| && s[j].key == key
  {
    hide Find;
    var f := Find(s, key);
  }

  lemma WithoutKeys<V>(s: seq<Entry<V>>, key: Key, k: Key)
    requires DistinctEntries(s)
    ensures Has(Without(s, key), k) <==> Has(s, k) && k != key
  {
    hide Find;
    var f, r := Find(s, key), Without(s, key);
    if f < |s| {
      assert s == s[..f] + [s[f]] + s[f + 1..];
      HasConcat(s[..f] + [s[f]], s[f + 1..], k);
      HasConcat(s[..f], [s[f]], k);
      HasConcat(s[..f], s[f + 1..], k);
      HasIffListed([s[f]], k);
      HasIffListed(s[..f], k);
      HasIffListed(s[f + 1..], k);
    }
  }

  /** The key that a step evicts: that of the last entry, when a new key is put into a full cache. */
  predicate Evicts<V>(s: seq<Entry<V>>, cap: nat, op: Op<V>, key: Key) {
    op.Put? && !Has(s, op.entry.key) && |s| >= cap && |s| > 0 && key == s[|s| - 1].key
  }

  /** Exactly which keys are there after a step: one may be put, one removed or one evicted. */
  lemma ApplyKeys<V>(s: seq<Entry<V>>, cap: nat, op: Op<V>, k: Key)
    requires cap >= 1 && WellFormed(s, cap)
    ensures Has(Apply(s, cap, op), k) <==>
              (op.Put? && op.entry.key == k) ||
              (Has(s, k) && op != Op<V>.Remove(k) && !Evicts(s, cap, op, k))
  {
    hide Find, Without;
    match op
    case Put(e) =>
      PutKeys(s, cap, e, k);
    case Touch(key) =>
      if Has(s, key) {
        WithoutKeys(s, key, k);
        HasConcat([s[Find(s, key)]], Without(s, key), k);
        HasOne(s[Find(s, key)], k);
      }
    case Remove(key) =>
      WithoutKeys(s, key, k);
    case Skip =>
  }

  lemma PutKeys<V>(s: seq<Entry<V>>, cap: nat, e: Entry<V>, k: Key)
    requires cap >= 1 && WellFormed(s, cap)
    ensures Has(Apply(s, cap, Put(e)), k) <==> e.key == k || (Has(s, k) && !Evicts(s, cap, Put(e), k))
  {
    hide Find, Without;
    HasOne(e, k);
    if Has(s, e.key) {
      WithoutKeys(s, e.key, k);
      HasConcat([e], Without(s, e.key), k);
    } else if |s| < cap {
      HasConcat([e], s, k);
    } else {
      var front, last := s[..cap - 1], s[cap - 1];
      assert s == front + [last];
      HasConcat([e], front, k);
      HasConcat(front, [last], k);
      HasOne(last, k);
      HasIffListed(front, k);
    }
  }

  // ---------------------------------------------------------------- how long a key stays

  /** `k` is there, and only keys of `used` are ahead of it. */
  ghost predicate Behind<V>(s: seq<Entry<V>>, k: Key, used: set<Key>) {
    Has(s, k) && forall j :: 0 <= j < Find(s, k) ==> s[j].key in used
  }

  function UsedBy<V>(op: Op<V>): set<Key> {
    match op
    case Put(e) => {e.key}
    case Touch(k) => {k}
    case _ => {}
  }

  /** The keys used by the operations from the `t`-th on. */
  function UsedSince<V>(ops: seq<Op<V>>, t: nat): set<Key>
    requires t <= |ops|
  {
    if |ops| == t then {} else UsedSince(ops[..|ops| - 1], t) + UsedBy(ops[|ops| - 1])
  }

  lemma BehindFront<V>(e: Entry<V>, rest: seq<Entry<V>>, k: Key, used: set<Key>)
    requires Behind(rest, k, used) && e.key in used && e.key != k
    ensures Behind([e] + rest, k, used)
  {
    hide Find;
    HasConcat([e], rest, k);
    HasOne(e, k);
  }

  lemma BehindWithout<V>(s: seq<Entry<V>>, key: Key, k: Key, used: set<Key>)
    requires DistinctEntries(s) && Behind(s, k, used) && key != k
    ensures Behind(Without(s, key), k, used)
  {
    WithoutKeys(s, key, k);
    hide Find;
    var f, g, r := Find(s, key), Find(s, k), Without(s, key);
    if f < |s| {
      var at := if f < g then g - 1 else g;
      assert r[at].key == k;
      assert Find(r, k) <= at;
    }
  }

  lemma BehindCut<V>(s: seq<Entry<V>>, k: Key, used: set<Key>, n: nat)
    requires Behind(s, k, used) && Find(s, k) < n <= |s|
    ensures Behind(s[..n], k, used)
  {
    hide Find;
    assert s == s[..n] + s[n..];
    HasConcat(s[..n], s[n..], k);
    HasIffListed(s[..n], k);
    assert s[..n][Find(s, k)].key == k;
  }

  /** The keys ahead of `k`, and one more that is not there, are all different. */
  lemma {:induction false} AheadCount<V>(s: seq<Entry<V>>, n: nat, used: set<Key>)
    requires DistinctEntries(s) && n <= |s| && forall j :: 0 <= j < n ==> s[j].key in used
    ensures n <= |used|
  {
    if n > 0 {
      AheadCount(s, n - 1, used - {s[n - 1].key});
    }
  }

  /** A put into a full cache cannot reach a key that has too few used keys ahead of it. */
  lemma NotYetEvicted<V>(s: seq<Entry<V>>, cap: nat, e: Entry<V>, k: Key, used: set<Key>)
    requires WellFormed(s, cap) && Behind(s, k, used) && e.key in used && !Has(s, e.key) && |used| < cap
    ensures Find(s, k) + 1 < cap
  {
    HasIffListed(s, e.key);
    hide Find;
    AheadCount(s, Find(s, k), used - {e.key});
    assert |used - {e.key}| == |used| - 1;
  }

  lemma StepKeepsBehind<V>(s: seq<Entry<V>>, cap: nat, op: Op<V>, k: Key, used: set<Key>)
    requires cap >= 1 && WellFormed(s, cap) && Behind(s, k, used)
    requires UsedBy(op) <= used && k !in UsedBy(op) && op != Op<V>.Remove(k) && |used| < cap
    ensures Behind(Apply(s, cap, op), k, used)
  {
    hide Behind, Find, Without;
    match op
    case Put(e) =>
      if Has(s, e.key) {
        BehindWithout(s, e.key, k, used);
        BehindFront(e, Without(s, e.key), k, used);
      } else if |s| < cap {
        BehindFront(e, s, k, used);
      } else {
        NotYetEvicted(s, cap, e, k, used);
        BehindCut(s, k, used, cap - 1);
        BehindFront(e, s[..cap - 1], k, used);
      }
    case Touch(key) =>
      if Has(s, key) {
        BehindWithout(s, key, k, used);
        BehindFront(s[Find(s, key)], Without(s, key), k, used);
      }
    case Remove(key) => BehindWithout(s, key, k, used);
    case Skip =>
  }

  lemma BehindMore<V>(s: seq<Entry<V>>, k: Key, used: set<Key>, more: set<Key>)
    requires Behind(s, k, used) && used <= more
    ensures Behind(s, k, more)
  {
  }

  /**
   A key that was just used stays, in any run, as long as it is not removed and fewer than `cap`
   other keys are used after it.
   */
  lemma {:induction false} RecentlyUsedStays<V>(cap: nat, ops: seq<Op<V>>, t: nat, k: Key)
    requires cap >= 1 && 0 < t <= |ops| && Uses(ops[t - 1], k) && Has(Run(cap, ops[..t]), k)
    requires k !in UsedSince(ops, t) && |UsedSince(ops, t)| < cap
    requires forall i :: t <= i < |ops| ==> ops[i] != Op<V>.Remove(k)
    ensures Behind(Run(cap, ops), k, UsedSince(ops, t))
  {
    if |ops| == t {
      assert ops[..t] == ops;
      JustUsedIsFirst(cap, ops, k);
    } else {
      hide Behind, Apply;
      var before, op := ops[..|ops| - 1], ops[|ops| - 1];
      var earlier := UsedSince(before, t);
      assert before[..t] == ops[..t];
      assert earlier <= UsedSince(ops, t);
      SmallerSet(earlier, UsedSince(ops, t));
      RecentlyUsedStays(cap, before, t, k);
      RunWellFormed(cap, before);
      BehindMore(Run(cap, before), k, earlier, UsedSince(ops, t));
      StepKeepsBehind(Run(cap, before), cap, op, k, UsedSince(ops, t));
    }
  }

  lemma SmallerSet(a: set<Key>, b: set<Key>)
    requires a <= b
    ensures |a| <= |b|
  {
    assert |b| == |a| + |b - a|;
  }

  lemma JustUsedIsFirst<V>(cap: nat, ops: seq<Op<V>>, k: Key)
    requires cap >= 1 && ops != [] && Uses(ops[|ops| - 1], k) && Has(Run(cap, ops), k)
    ensures Find(Run(cap, ops), k) == 0
  {
    var s := Run(cap, ops[..|ops| - 1]);
    if !ops[|ops| - 1].Put? {
      assert Has(s, k);
    }
  }

  // ---------------------------------------------------------------- exactly when a key is there

  /** What an operation did: used a key, dropped it, or neither. */
  datatype Mark = Used(key: Key) | Dropped(key: Key) | Idle

  function MarkOf<V>(s: seq<Entry<V>>, op: Op<V>): Mark {
    match op
    case Put(e) => Used(e.key)
    case Touch(k) => if Has(s, k) then Used(k) else Idle
    case Remove(k) => if Has(s, k) then Dropped(k) else Idle
    case Skip => Idle
  }

  predicate Concerns(m: Mark, k: Key) {
    !m.Idle? && m.key == k
  }

  /** The marks that the operations of a run leave. */
  function Marks<V>(cap: nat, ops: seq<Op<V>>): (ms: seq<Mark>)
    requires cap >= 1
    ensures |ms| == |ops|
  {
    if ops == [] then []
    else
      var before := ops[..|ops| - 1];
      Marks(cap, before) + [MarkOf(Run(cap, before), ops[|ops| - 1])]
  }

  lemma {:induction false} MarksAt<V>(cap: nat, ops: seq<Op<V>>, i: nat)
    requires cap >= 1 && i < |ops|
    ensures Marks(cap, ops)[i] == MarkOf(Run(cap, ops[..i]), ops[i])
  {
    hide MarkOf, Run;
    var before := ops[..|ops| - 1];
    if i < |before| {
      MarksAt(cap, before, i);
      assert before[..i] == ops[..i];
    }
  }

  /** One more than the index of the last mark of `k`; 0 if there is none. */
  function LastMark(ms: seq<Mark>, k: Key): (t: nat)
    ensures t <= |ms|
    ensures t > 0 ==> Concerns(ms[t - 1], k)
    ensures forall i :: t <= i < |ms| ==> !Concerns(ms[i], k)
  {
    if ms == [] then 0
    else if Concerns(ms[|ms| - 1], k) then |ms|
    else LastMark(ms[..|ms| - 1], k)
  }

  /** `keys` after one more mark. */
  function Noting(keys: set<Key>, m: Mark): set<Key> {
    match m
    case Used(k) => keys + {k}
    case Dropped(k) => keys - {k}
    case Idle => keys
  }

  /** The keys used from the `t`-th mark on and not dropped since. */
  function UsedAfter(ms: seq<Mark>, t: nat): set<Key>
    requires t <= |ms|
  {
    if |ms| == t then {} else Noting(UsedAfter(ms[..|ms| - 1], t), ms[|ms| - 1])
  }

  /** After the first `n` marks, fewer keys than `cap` have been used from the `t`-th on and not dropped. */
  ghost predicate Below(cap: nat, ms: seq<Mark>, t: nat, n: nat) {
    t <= n <= |ms| && |UsedAfter(ms[..n], t)| < cap
  }

  /**
   The last mark of `k` is a use, and at no time since then were there as many other keys, used
   since and not dropped, as the capacity.
   */
  ghost predicate Kept(cap: nat, ms: seq<Mark>, k: Key) {
    var t := LastMark(ms, k);
    t > 0 && ms[t - 1].Used? && forall n :: t <= n <= |ms| ==> Below(cap, ms, t, n)
  }

  lemma KeptNow(cap: nat, ms: seq<Mark>, m: Mark, k: Key)
    requires cap >= 1 && Concerns(m, k)
    ensures LastMark(ms + [m], k) == |ms| + 1
    ensures Kept(cap, ms + [m], k) <==> m.Used?
  {
    var longer := ms + [m];
    assert longer[..|longer|] == longer;
    assert UsedAfter(longer, |longer|) == {};
  }

  lemma BelowPrefix(cap: nat, ms: seq<Mark>, m: Mark, t: nat, n: nat)
    requires t <= n <= |ms|
    ensures Below(cap, ms + [m], t, n) <==> Below(cap, ms, t, n)
  {
    assert (ms + [m])[..n] == ms[..n];
  }

  lemma BelowAll(cap: nat, ms: seq<Mark>, t: nat)
    requires t <= |ms|
    ensures Below(cap, ms, t, |ms|) <==> |UsedAfter(ms, t)| < cap
  {
    assert ms[..|ms|] == ms;
  }

  lemma SameLastMark(ms: seq<Mark>, m: Mark, k: Key)
    requires !Concerns(m, k)
    ensures LastMark(ms + [m], k) == LastMark(ms, k)
  {
    assert (ms + [m])[..|ms|] == ms;
  }

  lemma KeptStill(cap: nat, ms: seq<Mark>, m: Mark, k: Key)
    requires !Concerns(m, k)
    ensures LastMark(ms + [m], k) == LastMark(ms, k)
    ensures UsedAfter(ms + [m], LastMark(ms, k)) == Noting(UsedAfter(ms, LastMark(ms, k)), m)
    ensures Kept(cap, ms + [m], k) <==> Kept(cap, ms, k) && |UsedAfter(ms + [m], LastMark(ms, k))| < cap
  {
    hide UsedAfter, Below, LastMark, Concerns;
    var longer, t := ms + [m], LastMark(ms, k);
    SameLastMark(ms, m, k);
    OneMoreMark(ms, m, t);
    BelowAll(cap, longer, t);
    forall n | t <= n <= |ms| ensures Below(cap, longer, t, n) <==> Below(cap, ms, t, n) {
      BelowPrefix(cap, ms, m, t, n);
    }
  }

  lemma OneMoreMark(ms: seq<Mark>, m: Mark, t: nat)
    requires t <= |ms|
    ensures UsedAfter(ms + [m], t) == Noting(UsedAfter(ms, t), m)
  {
    assert (ms + [m])[..|ms|] == ms;
  }

  function KeysOf<V>(s: seq<Entry<V>>): set<Key> {
    if s == [] then {} else KeysOf(s[..|s| - 1]) + {s[|s| - 1].key}
  }

  lemma {:induction false} InKeys<V>(s: seq<Entry<V>>, k: Key)
    ensures k in KeysOf(s) <==> exists j :: 0 <= j < |s| && s[j].key == k
  {
    if s != [] {
      var n := |s| - 1;
      InKeys(s[..n], k);
      if j :| 0 <= j < |s| && s[j].key == k {
        assert j < n ==> s[..n][j].key == k;
      }
    }
  }

  lemma {:induction false} KeyCount<V>(s: seq<Entry<V>>)
    requires DistinctEntries(s)
    ensures |KeysOf(s)| == |s|
  {
    if s != [] {
      var n := |s| - 1;
      KeyCount(s[..n]);
      InKeys(s[..n], s[n].key);
    }
  }

  /** The keys ahead of `k`. */
  function AheadOf<V>(s: seq<Entry<V>>, k: Key): set<Key> {
    KeysOf(s[..Find(s, k)])
  }

  lemma InAhead<V>(s: seq<Entry<V>>, k: Key, x: Key)
    ensures x in AheadOf(s, k) <==> Find(s, x) < Find(s, k)
  {
    hide Find, KeysOf;
    var f := Find(s, k);
    InKeys(s[..f], x);
    if x in AheadOf(s, k) {
      var j :| 0 <= j < f && s[..f][j].key == x;
      assert s[j].key == x;
    }
    if Find(s, x) < f {
      assert s[..f][Find(s, x)].key == x;
    }
  }

  lemma AheadSize<V>(s: seq<Entry<V>>, k: Key)
    requires DistinctEntries(s)
    ensures |AheadOf(s, k)| == Find(s, k)
  {
    hide Find, KeysOf;
    KeyCount(s[..Find(s, k)]);
  }

  lemma FrontAhead<V>(e: Entry<V>, rest: seq<Entry<V>>, k: Key)
    requires Has(rest, k) && e.key != k
    ensures Has([e] + rest, k) && AheadOf([e] + rest, k) == AheadOf(rest, k) + {e.key}
  {
    hide Find, KeysOf, AheadOf;
    HasConcat([e], rest, k);
    HasOne(e, k);
    forall x ensures x in AheadOf([e] + rest, k) <==> x in AheadOf(rest, k) || x == e.key {
      InAhead([e] + rest, k, x);
      InAhead(rest, k, x);
      HasConcat([e], rest, x);
      HasOne(e, x);
    }
  }

  lemma WithoutAhead<V>(s: seq<Entry<V>>, key: Key, k: Key)
    requires DistinctEntries(s) && Has(s, k) && key != k
    ensures Has(Without(s, key), k) && AheadOf(Without(s, key), k) == AheadOf(s, k) - {key}
  {
    hide Find, Without, KeysOf, AheadOf, DistinctEntries;
    var r := Without(s, key);
    WithoutKeys(s, key, k);
    WithoutFind(s, key, k);
    forall x ensures x in AheadOf(r, k) <==> x in AheadOf(s, k) && x != key {
      InAhead(r, k, x);
      InAhead(s, k, x);
      WithoutKeys(s, key, x);
      if x != key {
        WithoutFind(s, key, x);
      }
    }
  }

  lemma WithoutFind<V>(s: seq<Entry<V>>, key: Key, x: Key)
    requires DistinctEntries(s) && x != key
    ensures Find(Without(s, key), x) == if Find(s, key) < Find(s, x) then Find(s, x) - 1 else Find(s, x)
  {
    WithoutKeys(s, key, x);
    hide Find;
    var f, g, r := Find(s, key), Find(s, x), Without(s, key);
    if f < |s| {
      var at := if f < g then g - 1 else g;
      if g < |s| {
        assert r[at].key == x;
        forall j | 0 <= j < at ensures r[j].key != x {
          WithoutAt(s, key, j);
        }
      }
    }
  }

  /** One step as seen by a key that it does not concern: which keys are ahead of it, and when it is evicted. */
  lemma StepAhead<V>(s: seq<Entry<V>>, cap: nat, op: Op<V>, k: Key)
    requires cap >= 1 && WellFormed(s, cap) && Has(s, k) && !Concerns(MarkOf(s, op), k)
    ensures var s', keys := Apply(s, cap, op), Noting(AheadOf(s, k), MarkOf(s, op));
            && (Has(s', k) <==> |keys| < cap)
            && (Has(s', k) ==> AheadOf(s', k) == keys)
  {
    hide Find, Without, AheadOf;
    match op
    case Put(e) =>
      if Has(s, e.key) {
        WithoutAhead(s, e.key, k);
        FrontAhead(e, Without(s, e.key), k);
        StillThere(s, cap, op, k, AheadOf(s, k) + {e.key});
      } else {
        PutNewAhead(s, cap, e, k);
      }
    case Touch(key) =>
      if Has(s, key) {
        WithoutAhead(s, key, k);
        FrontAhead(s[Find(s, key)], Without(s, key), k);
        StillThere(s, cap, op, k, AheadOf(s, k) + {key});
      } else {
        StillThere(s, cap, op, k, AheadOf(s, k));
      }
    case Remove(key) =>
      WithoutAhead(s, key, k);
      StillThere(s, cap, op, k, AheadOf(s, k) - {key});
      if !Has(s, key) {
        NotAhead(s, k, key);
      }
    case Skip =>
      StillThere(s, cap, op, k, AheadOf(s, k));
  }

  lemma NotAhead<V>(s: seq<Entry<V>>, k: Key, x: Key)
    requires Has(s, k) && !Has(s, x)
    ensures x !in AheadOf(s, k) && AheadOf(s, k) - {x} == AheadOf(s, k)
  {
    InAhead(s, k, x);
  }

  lemma StillThere<V>(s: seq<Entry<V>>, cap: nat, op: Op<V>, k: Key, keys: set<Key>)
    requires cap >= 1 && WellFormed(s, cap)
    requires Has(Apply(s, cap, op), k) && AheadOf(Apply(s, cap, op), k) <= keys <= AheadOf(Apply(s, cap, op), k)
    ensures |keys| < cap && keys == AheadOf(Apply(s, cap, op), k)
  {
    hide Find, Apply, AheadOf;
    assert keys == AheadOf(Apply(s, cap, op), k);
    ApplyWellFormed(s, cap, op);
    AheadSize(Apply(s, cap, op), k);
  }

  lemma PutNewAhead<V>(s: seq<Entry<V>>, cap: nat, e: Entry<V>, k: Key)
    requires cap >= 1 && WellFormed(s, cap) && Has(s, k) && !Has(s, e.key)
    ensures var s', keys := Apply(s, cap, Put(e)), AheadOf(s, k) + {e.key};
            && (Has(s', k) <==> |keys| < cap)
            && (Has(s', k) ==> AheadOf(s', k) == keys)
  {
    hide Find, AheadOf, DistinctEntries;
    AheadSize(s, k);
    NotAhead(s, k, e.key);
    if |s| < cap {
      FrontAhead(e, s, k);
    } else if Find(s, k) < cap - 1 {
      CutAhead(s, k, cap - 1);
      FrontAhead(e, s[..cap - 1], k);
    } else {
      PutKeys(s, cap, e, k);
      LastEntry(s, k);
    }
  }

  lemma LastEntry<V>(s: seq<Entry<V>>, k: Key)
    requires DistinctEntries(s) && Has(s, k)
    ensures s[|s| - 1].key == k <==> Find(s, k) == |s| - 1
  {
    hide Find;
    var f := Find(s, k);
    assert f < |s| - 1 ==> s[f].key != s[|s| - 1].key;
  }

  lemma CutAhead<V>(s: seq<Entry<V>>, k: Key, n: nat)
    requires Find(s, k) < n <= |s|
    ensures Has(s[..n], k) && AheadOf(s[..n], k) == AheadOf(s, k)
  {
    hide Find, KeysOf;
    assert s == s[..n] + s[n..];
    HasConcat(s[..n], s[n..], k);
    HasIffListed(s[..n], k);
    assert s[..n][Find(s, k)].key == k;
    assert s[..n][..Find(s, k)] == s[..Find(s, k)];
  }

  /**
   Exactly which keys are there after a run, and in which order, in terms of which operations used
   and dropped which keys: the keys ahead of `k` are those used after it and not dropped since, and
   `k` is gone as soon as these are as many as the capacity.
   */
  lemma {:induction false} PresentExactly<V>(cap: nat, ops: seq<Op<V>>, k: Key)
    requires cap >= 1
    ensures Has(Run(cap, ops), k) <==> Kept(cap, Marks(cap, ops), k)
    ensures Has(Run(cap, ops), k) ==> AheadOf(Run(cap, ops), k) == UsedAfter(Marks(cap, ops), LastMark(Marks(cap, ops), k))
  {
    hide Find, AheadOf, Apply, MarkOf, Kept, LastMark, UsedAfter;
    if ops == [] {
      NothingKept<V>(cap, k);
    } else {
      var before, op := ops[..|ops| - 1], ops[|ops| - 1];
      var s, ms, m := Run(cap, before), Marks(cap, before), MarkOf(Run(cap, before), op);
      RunWellFormed(cap, before);
      PresentExactly(cap, before, k);
      if Concerns(m, k) {
        KeptNow(cap, ms, m, k);
        StepConcerns(s, cap, op, k);
        NothingSince(ms + [m]);
      } else {
        KeptStill(cap, ms, m, k);
        if Has(s, k) {
          StepAhead(s, cap, op, k);
        } else {
          StaysAway(s, cap, op, k);
        }
      }
    }
  }

  lemma NothingSince(ms: seq<Mark>)
    ensures UsedAfter(ms, |ms|) == {}
  {
  }

  lemma NothingKept<V>(cap: nat, k: Key)
    ensures !Kept(cap, [], k) && !Has<V>([], k)
  {
  }

  lemma StepConcerns<V>(s: seq<Entry<V>>, cap: nat, op: Op<V>, k: Key)
    requires cap >= 1 && WellFormed(s, cap) && Concerns(MarkOf(s, op), k)
    ensures Has(Apply(s, cap, op), k) <==> MarkOf(s, op).Used?
    ensures Has(Apply(s, cap, op), k) ==> AheadOf(Apply(s, cap, op), k) == {}
  {
    if op.Remove? {
      WithoutKeys(s, k, k);
    } else {
      assert Find(Apply(s, cap, op), k) == 0;
    }
  }

  lemma StaysAway<V>(s: seq<Entry<V>>, cap: nat, op: Op<V>, k: Key)
    requires cap >= 1 && WellFormed(s, cap) && !Has(s, k) && !Concerns(MarkOf(s, op), k)
    ensures !Has(Apply(s, cap, op), k)
  {
    hide Find, Apply;
    ApplyKeys(s, cap, op, k);
  }

  /** The keys from position `t` on. */
  function KeysSince(keys: seq<Key>, t: nat): set<Key>
    requires t <= |keys|
  {
    set k | k in keys[t..]
  }

  lemma {:induction false} UsedWereNamed(ms: seq<Mark>, keys: seq<Key>, t: nat, n: nat)
    requires t <= n <= |ms| == |keys| && forall i :: 0 <= i < |ms| ==> ms[i].Idle? || ms[i].key == keys[i]
    ensures UsedAfter(ms[..n], t) <= KeysSince(keys, t)
  {
    if t < n {
      UsedWereNamed(ms, keys, t, n - 1);
      assert ms[..n][..n - 1] == ms[..n - 1];
      assert keys[n - 1] == keys[t..][n - 1 - t];
    }
  }

  /** If every mark is of the key named with it, a used key is kept while fewer others than the capacity are named. */
  lemma KeptIfFew(cap: nat, ms: seq<Mark>, keys: seq<Key>, t: nat)
    requires |ms| == |keys| && forall i :: 0 <= i < |ms| ==> ms[i].Idle? || ms[i].key == keys[i]
    requires t < |ms| && ms[t].Used?
    requires keys[t] !in KeysSince(keys, t + 1) && |KeysSince(keys, t + 1)| < cap
    ensures Kept(cap, ms, keys[t])
  {
    hide UsedAfter;
    var k, u := keys[t], t + 1;
    forall i | u <= i < |ms| ensures !Concerns(ms[i], k) {
      assert keys[i] == keys[u..][i - u];
    }
    assert Concerns(ms[t], k);
    assert LastMark(ms, k) == u;
    forall n | u <= n <= |ms| ensures Below(cap, ms, u, n) {
      UsedWereNamed(ms, keys, u, n);
      SmallerSet(UsedAfter(ms[..n], u), KeysSince(keys, u));
    }
  }

  // ---------------------------------------------------------------- the last cap keys

  /** The last entry of each key in `history`, most recent first. */
  function LastEntries<V>(history: seq<Entry<V>>): seq<Entry<V>> {
    if history == [] then []
    else LastEntries(history[1..]) + (if Has(history[1..], history[0].key) then [] else [history[0]])
  }

  /** The run that puts the entries of `history` one after the other. */
  function Puts<V>(history: seq<Entry<V>>): (ops: seq<Op<V>>)
    ensures |ops| == |history| && forall i :: 0 <= i < |ops| ==> ops[i] == Put(history[i])
  {
    seq(|history|, i requires 0 <= i < |history| => Put(history[i]))
  }

  lemma HasConcat<V>(a: seq<Entry<V>>, b: seq<Entry<V>>, key: Key)
    ensures Has(a + b, key) <==> Has(a, key) || Has(b, key)
    ensures Find(a + b, key) == if Has(a, key) then Find(a, key) else |a| + Find(b, key)
  {
    hide Find;
    assert forall i :: 0 <= i < |a| ==> (a + b)[i] == a[i];
    assert forall i :: |a| <= i < |a + b| ==> (a + b)[i] == b[i - |a|];
    assert forall i :: 0 <= i < |b| ==> b[i] == (a + b)[|a| + i];
    var f, g, h := Find(a + b, key), Find(a, key), Find(b, key);
    assert g < |a| ==> (a + b)[g].key == key;
    assert h < |b| ==> (a + b)[|a| + h].key == key;
  }

  lemma WithoutAppend<V>(s: seq<Entry<V>>, e: Entry<V>, key: Key)
    requires !Has(s, e.key)
    ensures Without(s + [e], key) == if e.key == key then s else Without(s, key) + [e]
  {
    hide Find;
    HasConcat(s, [e], key);
    var f := Find(s, key);
    if f < |s| {
      assert (s + [e])[..f] + (s + [e])[f + 1..] == s[..f] + s[f + 1..] + [e];
    } else if e.key == key {
      assert [e][0].key == key;
      assert (s + [e])[..|s|] + (s + [e])[|s| + 1..] == s;
    }
  }

  lemma {:induction false} LastEntriesKeys<V>(h: seq<Entry<V>>, key: Key)
    ensures Has(LastEntries(h), key) <==> Has(h, key)
  {
    if h != [] {
      LastEntriesKeys(h[1..], key);
      HasConcat([h[0]], h[1..], key);
      HasConcat(LastEntries(h[1..]), [h[0]], key);
      assert [h[0]] + h[1..] == h;
      assert LastEntries(h[1..]) + [] == LastEntries(h[1..]);
    }
  }

  lemma HasOne<V>(e: Entry<V>, key: Key)
    ensures Has([e], key) <==> e.key == key
  {
  }

  lemma LastEntriesCons<V>(x: Entry<V>, t: seq<Entry<V>>)
    ensures LastEntries([x] + t) == LastEntries(t) + if Has(t, x.key) then [] else [x]
  {
    hide Find;
    assert ([x] + t)[1..] == t;
  }

  /** Removing a key from a list that may have been extended by an entry not in it. */
  lemma WithoutTail<V>(s: seq<Entry<V>>, x: Entry<V>, key: Key)
    ensures Without(s + (if Has(s, x.key) then [] else [x]), key) ==
            Without(s, key) + if Has(s, x.key) || x.key == key then [] else [x]
  {
    hide Find;
    if Has(s, x.key) {
      assert s + [] == s && Without(s, key) + [] == Without(s, key);
    } else {
      WithoutAppend(s, x, key);
    }
  }

  lemma LastEntriesOne<V>(e: Entry<V>)
    ensures LastEntries([e]) == [e] + Without(LastEntries([]), e.key)
  {
  }

  /** A later entry replaces the earlier one of its key and becomes the most recent. */
  lemma {:induction false} LastEntriesSnoc<V>(h: seq<Entry<V>>, e: Entry<V>)
    ensures LastEntries(h + [e]) == [e] + Without(LastEntries(h), e.key)
  {
    hide Find, LastEntries, Without;
    if h == [] {
      assert h + [e] == [e];
      LastEntriesOne(e);
    } else {
      var x, t := h[0], h[1..];
      LastEntriesSnoc(t, e);
      assert h + [e] == [x] + (t + [e]) && h == [x] + t;
      LastEntriesCons(x, t + [e]);
      LastEntriesCons(x, t);
      LastEntriesKeys(t, x.key);
      HasConcat(t, [e], x.key);
      HasOne(e, x.key);
      WithoutTail(LastEntries(t), x, e.key);
    }
  }

  function Take<V>(s: seq<Entry<V>>, n: nat): seq<Entry<V>> {
    if |s| <= n then s else s[..n]
  }

  /** Putting into a full prefix is putting into the whole and cutting again. */
  lemma PutIntoPrefix<V>(s: seq<Entry<V>>, cap: nat, e: Entry<V>)
    requires cap >= 1
    ensures Apply(Take(s, cap), cap, Put(e)) == Take([e] + Without(s, e.key), cap)
  {
    hide Find;
    var t := Take(s, cap);
    var f, g := Find(s, e.key), Find(t, e.key);
    if g < |t| {
      assert s[g].key == e.key && f == g;
      CutInside(s, cap, f, e);
    } else {
      PrefixHasNone(s, cap, e.key);
      if f < |s| {
        CutBeyond(s, cap, f, e);
      } else {
        assert [e] + Take(s, cap - 1) == Take([e] + s, cap);
      }
    }
  }

  lemma CutInside<V>(s: seq<Entry<V>>, cap: nat, f: nat, e: Entry<V>)
    requires f < |Take(s, cap)|
    ensures var t := Take(s, cap);
            [e] + (t[..f] + t[f + 1..]) == Take([e] + (s[..f] + s[f + 1..]), cap)
  {
  }

  lemma CutBeyond<V>(s: seq<Entry<V>>, cap: nat, f: nat, e: Entry<V>)
    requires 1 <= cap <= f < |s|
    ensures [e] + s[..cap - 1] == Take([e] + (s[..f] + s[f + 1..]), cap)
  {
  }

  /** A key that the beginning does not have comes later or not at all. */
  lemma PrefixHasNone<V>(s: seq<Entry<V>>, cap: nat, key: Key)
    requires !Has(Take(s, cap), key)
    ensures Find(s, key) >= |Take(s, cap)|
  {
    hide Find;
    var t, f := Take(s, cap), Find(s, key);
    assert forall j :: 0 <= j < |t| ==> s[j] == t[j] && t[j].key != key;
  }

  /**
   A cache that is only put into holds exactly the last entry of each of the `cap` most
   recently put keys, in order of recency. So a larger cache always contains a smaller one.
   */
  lemma {:induction false} KeepsMostRecent<V>(cap: nat, h: seq<Entry<V>>)
    requires cap >= 1
    ensures Run(cap, Puts(h)) == Take(LastEntries(h), cap)
  {
    if h != [] {
      var before, e := h[..|h| - 1], h[|h| - 1];
      assert h == before + [e];
      assert Puts(h)[..|h| - 1] == Puts(before);
      KeepsMostRecent(cap, before);
      LastEntriesSnoc(before, e);
      PutIntoPrefix(LastEntries(before), cap, e);
    }
  }
}
