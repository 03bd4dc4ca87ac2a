/** The least-recently-used cache of vectors: a dictionary and a recency list that agree. */
module LruCache {
  import opened Common

  type Key = string
  type Vector = seq<real>

  datatype Outcome = Done | IndexError

  // `recency` lists the keys, the least recently used first.
  datatype State = State(cache: map<Key, Vector>, recency: seq<Key>)

  const EMPTY := State(map[], [])

  // ---------- the operations ----------

  // Removal of the first occurrence from a list.
  function Without(s: seq<Key>, k: Key): seq<Key> {
    if s == [] then [] else if s[0] == k then s[1..] else [s[0]] + Without(s[1..], k)
  }

  function Touched(s: seq<Key>, k: Key): seq<Key> {
    Without(s, k) + [k]
  }

  function Found(s: State, k: Key): Option<Vector> {
    if k in s.cache then Some(s.cache[k]) else None
  }

  function AfterGet(s: State, k: Key): State {
    if k in s.cache then s.(recency := Touched(s.recency, k)) else s
  }

  // Evicting from an empty recency list raises, before anything is changed.
  predicate SetRaises(size: int, s: State, k: Key) {
    k !in s.cache && |s.cache| >= size && s.recency == []
  }

  function AfterSet(size: int, s: State, k: Key, v: Vector): State {
    if k in s.cache then State(s.cache[k := v], Touched(s.recency, k))
    else if |s.cache| < size then State(s.cache[k := v], s.recency + [k])
    else if s.recency == [] then s
    else State((s.cache - {s.recency[0]})[k := v], s.recency[1..] + [k])
  }

  lemma {:induction false} WithoutSplits(s: seq<Key>, k: Key, i: nat)
    requires i < |s| && s[i] == k && k !in s[..i]
    ensures Without(s, k) == s[..i] + s[i + 1..]
  {
    if i > 0 {
      assert s[0] == s[..i][0];
      assert s[1..][..i - 1] == s[..i][1..] && s[1..][i..] == s[i + 1..];
      WithoutSplits(s[1..], k, i - 1);
    }
  }

  // ---------- the object ----------

  class VectorCache {
    var cache: map<Key, Vector>
    var recency: seq<Key>
    const maxSize: int

    function Contents(): State
      reads this
    {
      State(cache, recency)
    }

    constructor (maxSize: int)
      ensures cache == map[] && recency == [] && this.maxSize == maxSize
      ensures Contents() == EMPTY && Agree(Contents())
    {
      cache, recency := map[], [];
      this.maxSize := maxSize;
    }

    // list.remove raises when the key is missing, so the list must agree with the dictionary.
    method Touch(key: Key)
      requires key in recency
      modifies this`recency
      ensures recency == Touched(old(recency), key)
    {
      var i := 0;
      while recency[i] != key
        invariant 0 <= i < |recency| && key !in recency[..i]
        decreases |recency| - i
      {
        i := i + 1;
      }
      WithoutSplits(recency, key, i);
      recency := recency[..i] + recency[i + 1..];
      recency := recency + [key];
    }

    method Get(key: Key) returns (r: Option<Vector>)
      requires Agree(Contents())
      modifies this
      ensures r == Found(old(Contents()), key)
      ensures Contents() == AfterGet(old(Contents()), key) && Agree(Contents())
    {
      AfterKeepsAgree(maxSize, Contents(), GetOp(key));
      if key in cache {
        Touch(key);
        return Some(cache[key]);
      }
      return None;
    }

    method Set(key: Key, vector: Vector) returns (r: Outcome)
      requires Agree(Contents())
      modifies this
      ensures r == if SetRaises(maxSize, old(Contents()), key) then IndexError else Done
      ensures r == IndexError <==> key !in old(cache) && |old(cache)| >= maxSize && old(recency) == []
      ensures Contents() == AfterSet(maxSize, old(Contents()), key, vector) && Agree(Contents())
    {
      AfterKeepsAgree(maxSize, Contents(), SetOp(key, vector));
      if key in cache {
        cache := cache[key := vector];
        Touch(key);
      } else {
        if |cache| >= maxSize {
          if recency == [] {
            return IndexError;
          }
          var oldest := recency[0];
          recency := recency[1..];
          cache := cache - {oldest};
        }
        cache := cache[key := vector];
        recency := recency + [key];
      }
      return Done;
    }

    method Clear()
      modifies this
      ensures cache == map[] && recency == [] && Contents() == EMPTY && Agree(Contents())
    {
      cache, recency := map[], [];
    }
  }

  // ---------- runs ----------

  datatype Op = GetOp(key: Key) | SetOp(key: Key, vector: Vector) | ClearOp

  function After(size: int, s: State, op: Op): State {
    match op
    case GetOp(k) => AfterGet(s, k)
    case SetOp(k, v) => AfterSet(size, s, k, v)
    case ClearOp => EMPTY
  }

  function Run(size: int, ops: seq<Op>): State {
    if ops == [] then EMPTY else After(size, Run(size, ops[..|ops| - 1]), ops[|ops| - 1])
  }

  // ---------- the dictionary and the list agree ----------

  predicate NoDuplicates(s: seq<Key>) {
    s == [] || (s[0] !in s[1..] && NoDuplicates(s[1..]))
  }

  lemma {:induction false} NoDuplicatesAppend(s: seq<Key>, k: Key)
    ensures NoDuplicates(s + [k]) <==> NoDuplicates(s) && k !in s
  {
    if s != [] {
      assert (s + [k])[1..] == s[1..] + [k];
      NoDuplicatesAppend(s[1..], k);
      assert s == [s[0]] + s[1..];
    }
  }

  // The list is a duplicate-free enumeration of the dictionary's keys.
  ghost predicate Agree(s: State) {
    NoDuplicates(s.recency) && (forall k :: k in s.recency <==> k in s.cache)
  }

  lemma {:induction false} WithoutMeans(s: seq<Key>, k: Key)
    requires NoDuplicates(s)
    ensures NoDuplicates(Without(s, k))
    ensures forall x :: x in Without(s, k) <==> x in s && x != k
    ensures |Without(s, k)| == |s| - if k in s then 1 else 0
    ensures k !in s ==> Without(s, k) == s
  {
    if s != [] {
      assert s == [s[0]] + s[1..];
      WithoutMeans(s[1..], k);
      assert s[0] != k ==> Without(s, k)[1..] == Without(s[1..], k);
    }
  }

  lemma {:induction false} CountKeys(s: seq<Key>, ks: set<Key>)
    requires NoDuplicates(s) && forall k :: k in s <==> k in ks
    ensures |s| == |ks|
  {
    if s == [] {
      assert ks == {};
    } else {
      assert s == [s[0]] + s[1..];
      CountKeys(s[1..], ks - {s[0]});
    }
  }

  lemma TouchedMeans(s: seq<Key>, k: Key)
    requires NoDuplicates(s)
    ensures NoDuplicates(Touched(s, k))
    ensures forall x :: x in Touched(s, k) <==> x in s || x == k
    ensures |Touched(s, k)| == |s| + if k in s then 0 else 1
    ensures k !in s ==> Touched(s, k) == s + [k]
  {
    WithoutMeans(s, k);
    NoDuplicatesAppend(Without(s, k), k);
  }

  lemma AfterKeepsAgree(size: int, s: State, op: Op)
    requires Agree(s)
    ensures Agree(After(size, s, op))
    ensures |s.recency| == |s.cache|
    ensures 0 <= size && |s.cache| <= size ==> |After(size, s, op).cache| <= size
  {
    CountKeys(s.recency, s.cache.Keys);
    match op
    case ClearOp =>
    case GetOp(k) =>
      TouchedMeans(s.recency, k);
      hide Touched, NoDuplicates;
    case SetOp(k, v) =>
      SetKeepsAgree(size, s, k, v);
      var t := AfterSet(size, s, k, v);
      hide AfterSet, NoDuplicates;
      CountKeys(t.recency, t.cache.Keys);
  }

  lemma SetKeepsAgree(size: int, s: State, k: Key, v: Vector)
    requires Agree(s) && |s.recency| == |s.cache|
    ensures var t := AfterSet(size, s, k, v);
      Agree(t) && (0 <= size && |s.cache| <= size ==> |t.recency| <= size)
  {
    if k in s.cache {
      TouchedMeans(s.recency, k);
      hide Touched, NoDuplicates;
    } else if |s.cache| < size {
      NoDuplicatesAppend(s.recency, k);
      hide Touched, NoDuplicates;
    } else if s.recency != [] {
      var oldest, rest := s.recency[0], s.recency[1..];
      assert s.recency == [oldest] + rest;
      NoDuplicatesAppend(rest, k);
      assert oldest !in rest;
      hide Touched, NoDuplicates;
    }
  }

  // ---------- a bigger cache never does worse ----------

  ghost predicate Subsequence(a: seq<Key>, b: seq<Key>) {
    a == [] || (b != [] && if a[0] == b[0] then Subsequence(a[1..], b[1..]) else Subsequence(a, b[1..]))
  }

  lemma {:induction false} SubsequenceMeans(a: seq<Key>, b: seq<Key>)
    requires Subsequence(a, b)
    ensures |a| <= |b|
    ensures forall x :: x in a ==> x in b
    ensures a != [] ==> Subsequence(a[1..], b)
  {
    if a != [] {
      assert a == [a[0]] + a[1..] && b == [b[0]] + b[1..];
      if a[0] == b[0] {
        SubsequenceMeans(a[1..], b[1..]);
        SubsequenceSkips(a[1..], b);
      } else {
        SubsequenceMeans(a, b[1..]);
        SubsequenceSkips(a[1..], b);
      }
    }
  }

  lemma {:induction false} SubsequenceSkips(a: seq<Key>, b: seq<Key>)
    requires b != [] && Subsequence(a, b[1..])
    ensures Subsequence(a, b)
  {
    if a != [] && a[0] == b[0] {
      SubsequenceMeans(a, b[1..]);
    }
  }

  lemma {:induction false} SubsequenceAppend(a: seq<Key>, b: seq<Key>, k: Key)
    requires Subsequence(a, b)
    ensures Subsequence(a, b + [k]) && Subsequence(a + [k], b + [k])
  {
    if b == [] {
      assert a + [k] == [k] && b + [k] == [k];
    } else {
      assert (b + [k])[1..] == b[1..] + [k];
      if a == [] {
        SubsequenceAppend([], b[1..], k);
        assert [k] == [] + [k] == a + [k];
        SubsequenceSkips([k], b + [k]);
      } else if a[0] == b[0] {
        SubsequenceAppend(a[1..], b[1..], k);
        assert (a + [k])[1..] == a[1..] + [k];
      } else {
        SubsequenceAppend(a, b[1..], k);
      }
    }
  }

  lemma {:induction false} SubsequenceWithout(a: seq<Key>, b: seq<Key>, k: Key)
    requires Subsequence(a, b) && NoDuplicates(a) && NoDuplicates(b)
    ensures Subsequence(Without(a, k), Without(b, k))
  {
    if a != [] {
      assert a == [a[0]] + a[1..];
      if a[0] == b[0] {
        SubsequenceWithout(a[1..], b[1..], k);
      } else {
        SubsequenceWithout(a, b[1..], k);
        if b[0] != k {
          assert Without(b, k)[1..] == Without(b[1..], k);
          SubsequenceSkips(Without(a, k), Without(b, k));
        } else {
          WithoutMeans(b[1..], k);
        }
      }
    }
  }

  // Dropping the oldest of the longer list costs the shorter one at most its own oldest.
  lemma SubsequenceEvicts(a: seq<Key>, b: seq<Key>)
    requires Subsequence(a, b) && NoDuplicates(b) && a != []
    ensures b != [] && Subsequence(a[1..], b[1..])
  {
    if a[0] != b[0] {
      SubsequenceMeans(a, b[1..]);
    }
  }

  // The small cache's list is a subsequence of the large one's, with the same vectors, and
  // until the small cache is full it has missed nothing.
  ghost predicate Included(n: nat, m: nat, s: State, t: State) {
    Agree(s) && Agree(t) && |s.cache| <= n && |t.cache| <= m
    && Subsequence(s.recency, t.recency)
    && (forall k :: k in s.cache ==> k in t.cache && s.cache[k] == t.cache[k])
    && (|s.cache| < n ==> forall k :: k in t.cache ==> k in s.cache)
  }

  lemma TouchKeepsSubsequence(a: seq<Key>, b: seq<Key>, k: Key)
    requires Subsequence(a, b) && NoDuplicates(a) && NoDuplicates(b)
    ensures Subsequence(Touched(a, k), Touched(b, k))
    ensures k !in a ==> Subsequence(a, Touched(b, k))
    ensures k !in a && a != [] ==> Subsequence(a[1..] + [k], Touched(b, k))
  {
    SubsequenceWithout(a, b, k);
    SubsequenceAppend(Without(a, k), Without(b, k), k);
    WithoutMeans(a, k);
    if k !in a && a != [] {
      SubsequenceMeans(a, Without(b, k));
      SubsequenceAppend(a[1..], Without(b, k), k);
    }
  }

  lemma SetKeepsSubsequence(n: nat, m: nat, s: State, t: State, k: Key, v: Vector)
    requires 1 <= n <= m && Included(n, m, s, t)
    ensures Subsequence(AfterSet(n, s, k, v).recency, AfterSet(m, t, k, v).recency)
  {
    CountKeys(s.recency, s.cache.Keys);
    CountKeys(t.recency, t.cache.Keys);
    var a, b := s.recency, t.recency;
    TouchKeepsSubsequence(a, b, k);
    SubsequenceMeans(a, b);
    if k !in t.cache {
      if |a| < n {
        SameSize(s.cache.Keys, t.cache.Keys);
        SubsequenceAppend(a, b, k);
      } else if |b| < m {
        SubsequenceAppend(a[1..], b, k);
      } else {
        SubsequenceEvicts(a, b);
        SubsequenceAppend(a[1..], b[1..], k);
      }
    }
  }

  lemma SameSize<T>(s: set<T>, t: set<T>)
    requires s <= t && t <= s
    ensures |s| == |t|
  {
    assert s == t;
  }

  lemma AfterKeepsIncluded(n: nat, m: nat, s: State, t: State, op: Op)
    requires 1 <= n <= m && Included(n, m, s, t)
    ensures Included(n, m, After(n, s, op), After(m, t, op))
  {
    AfterKeepsAgree(n, s, op);
    AfterKeepsAgree(m, t, op);
    match op
    case ClearOp =>
    case GetOp(k) =>
      TouchKeepsSubsequence(s.recency, t.recency, k);
    case SetOp(k, v) =>
      SetKeepsSubsequence(n, m, s, t, k, v);
      SetKeepsVectors(n, m, s, t, k, v);
  }

  lemma SetChangesOneVector(size: nat, s: State, k: Key, v: Vector)
    requires size > 0 && Agree(s) && |s.cache| <= size
    ensures var t := AfterSet(size, s, k, v);
      && k in t.cache && t.cache[k] == v
      && (forall x :: x in t.cache && x != k ==> x in s.cache && t.cache[x] == s.cache[x])
      && (|t.cache| < size ==> forall x :: x in s.cache ==> x in t.cache)
  {
  }

  lemma SetKeepsVectors(n: nat, m: nat, s: State, t: State, k: Key, v: Vector)
    requires 1 <= n <= m && Included(n, m, s, t)
    ensures var s', t' := AfterSet(n, s, k, v), AfterSet(m, t, k, v);
      && (forall x :: x in s'.cache ==> x in t'.cache && s'.cache[x] == t'.cache[x])
      && (|s'.cache| < n ==> forall x :: x in t'.cache ==> x in s'.cache)
  {
    AfterKeepsAgree(n, s, SetOp(k, v));
    AfterKeepsAgree(m, t, SetOp(k, v));
    SetKeepsSubsequence(n, m, s, t, k, v);
    SetChangesOneVector(n, s, k, v);
    SetChangesOneVector(m, t, k, v);
    SetGrowsToFull(n, s, k, v);
    var s', t' := AfterSet(n, s, k, v), AfterSet(m, t, k, v);
    SubsequenceMeans(s'.recency, t'.recency);
    hide AfterSet, NoDuplicates, Subsequence;
  }

  lemma SetGrowsToFull(size: nat, s: State, k: Key, v: Vector)
    requires size > 0 && Agree(s) && |s.cache| <= size
    ensures |AfterSet(size, s, k, v).cache| < size ==> |s.cache| < size
  {
  }

  lemma {:induction false} RunsAreIncluded(n: nat, m: nat, ops: seq<Op>)
    requires 1 <= n <= m
    ensures Included(n, m, Run(n, ops), Run(m, ops))
  {
    if ops != [] {
      RunsAreIncluded(n, m, ops[..|ops| - 1]);
      AfterKeepsIncluded(n, m, Run(n, ops[..|ops| - 1]), Run(m, ops[..|ops| - 1]), ops[|ops| - 1]);
    }
  }

  // On every trace, a hit in the smaller cache is a hit with the same vector in the larger.
  lemma BiggerNeverDoesWorse(n: nat, m: nat, ops: seq<Op>, k: Key)
    requires 1 <= n <= m
    ensures Subsequence(Run(n, ops).recency, Run(m, ops).recency)
    ensures Found(Run(n, ops), k).Some? ==> Found(Run(m, ops), k) == Found(Run(n, ops), k)
  {
    RunsAreIncluded(n, m, ops);
  }

  // ---------- what the cache holds ----------

  // The keys used since the last clear, in order: every set, and every get that hit.
  function Uses(size: int, ops: seq<Op>): seq<Key> {
    if ops == [] then []
    else
      var before := ops[..|ops| - 1];
      match ops[|ops| - 1]
      case SetOp(k, _) => Uses(size, before) + [k]
      case GetOp(k) => if Found(Run(size, before), k).Some? then Uses(size, before) + [k] else Uses(size, before)
      case ClearOp => []
  }

  // The distinct keys used after the last use of k.
  function UsedAfter(uses: seq<Key>, k: Key): set<Key> {
    if uses == [] || uses[|uses| - 1] == k then {}
    else UsedAfter(uses[..|uses| - 1], k) + {uses[|uses| - 1]}
  }

  // The vector of the last set of k since the last clear.
  function LastSet(ops: seq<Op>, k: Key): Option<Vector> {
    if ops == [] then None
    else
      match ops[|ops| - 1]
      case SetOp(j, v) => if j == k then Some(v) else LastSet(ops[..|ops| - 1], k)
      case GetOp(_) => LastSet(ops[..|ops| - 1], k)
      case ClearOp => None
  }

  // All keys ever used, by last use: what an unbounded cache would list.
  ghost function Stack(uses: seq<Key>): seq<Key> {
    if uses == [] then [] else Touched(Stack(uses[..|uses| - 1]), uses[|uses| - 1])
  }

  ghost function Following(s: seq<Key>, k: Key): seq<Key> {
    if s == [] then [] else if s[0] == k then s[1..] else Following(s[1..], k)
  }

  ghost function Last(s: seq<Key>, c: nat): seq<Key> {
    if |s| <= c then s else s[|s| - c..]
  }

  lemma {:induction false} FollowingTouched(s: seq<Key>, x: Key, k: Key)
    requires NoDuplicates(s) && k in s && k != x
    ensures forall y :: y in Following(Touched(s, x), k) <==> y in Following(s, k) || y == x
    ensures NoDuplicates(Following(s, k)) && |Following(s, k)| < |s|
  {
    assert s == [s[0]] + s[1..];
    if s[0] == k {
      TouchedMeans(s[1..], x);
      assert Touched(s, x) == [k] + Touched(s[1..], x);
    } else {
      FollowingTouched(s[1..], x, k);
      if s[0] == x {
        WithoutMeans(s[1..], x);
        assert Touched(s, x) == Touched(s[1..], x);
      } else {
        assert Touched(s, x)[1..] == Touched(s[1..], x);
      }
    }
  }

  lemma {:induction false} FollowingLast(s: seq<Key>, k: Key)
    requires NoDuplicates(s + [k])
    ensures Following(s + [k], k) == []
  {
    if s != [] {
      assert (s + [k])[1..] == s[1..] + [k];
      assert k in (s + [k])[1..];
      FollowingLast(s[1..], k);
    }
  }

  lemma {:induction false} StackMeans(uses: seq<Key>, k: Key)
    ensures NoDuplicates(Stack(uses))
    ensures k in Stack(uses) <==> k in uses
    ensures k in uses ==> forall y :: y in Following(Stack(uses), k) <==> y in UsedAfter(uses, k)
  {
    if uses != [] {
      var init, x := uses[..|uses| - 1], uses[|uses| - 1];
      assert uses == init + [x];
      StackMeans(init, k);
      TouchedMeans(Stack(init), x);
      if k == x {
        FollowingLast(Without(Stack(init), x), x);
      } else if k in init {
        FollowingTouched(Stack(init), x, k);
      }
    }
  }

  lemma {:induction false} InLast(s: seq<Key>, k: Key, c: nat)
    requires NoDuplicates(s)
    ensures k in Last(s, c) <==> k in s && |Following(s, k)| < c
    ensures NoDuplicates(Following(s, k)) && |Following(s, k)| <= |s| && (k in s ==> |Following(s, k)| < |s|)
  {
    if s != [] {
      assert s == [s[0]] + s[1..];
      InLast(s[1..], k, c);
      if |s| > c {
        assert Last(s, c) == Last(s[1..], c);
      }
    }
  }

  lemma WithoutStep(x: Key, rest: seq<Key>, k: Key)
    ensures Without([x] + rest, k) == if x == k then rest else [x] + Without(rest, k)
  {
  }

  lemma {:induction false} WithoutConcat(p: seq<Key>, r: seq<Key>, k: Key)
    ensures Without(p + r, k) == if k in p then Without(p, k) + r else p + Without(r, k)
  {
    hide *;
    if p == [] {
      assert p + r == r && p + Without(r, k) == Without(r, k);
    } else {
      var x, rest := p[0], p[1..];
      assert p == [x] + rest && p + r == [x] + (rest + r);
      WithoutStep(x, rest + r, k);
      WithoutStep(x, rest, k);
      if x != k {
        WithoutConcat(rest, r, k);
        Grouped([x], if k in rest then Without(rest, k) else rest, if k in rest then r else Without(r, k));
      }
    }
  }

  lemma Grouped(a: seq<Key>, b: seq<Key>, c: seq<Key>)
    ensures a + (b + c) == a + b + c
  {
  }

  // Using a key moves the window of the c most recent keys as the cache does.
  lemma LastTouched(s: seq<Key>, k: Key, c: nat)
    requires NoDuplicates(s) && c > 0
    ensures Last(Touched(s, k), c) ==
      if k in Last(s, c) then Touched(Last(s, c), k)
      else if |Last(s, c)| < c then Last(s, c) + [k]
      else Last(s, c)[1..] + [k]
  {
    hide Touched, NoDuplicates;
    var r := Last(s, c);
    var p := s[..|s| - |r|];
    assert s == p + r;
    NoDuplicatesTail(p, r);
    TouchedMeans(r, k);
    if k in r {
      NoDuplicatesApart(p, r, k);
      TouchedConcat(p, r, k);
      LastOfConcat(p, Touched(r, k), c);
    } else if |r| < c {
      assert s == r;
    } else {
      ShiftWindow(p, r, k);
    }
  }

  lemma TouchedConcat(p: seq<Key>, r: seq<Key>, k: Key)
    requires k !in p
    ensures Touched(p + r, k) == p + Touched(r, k)
  {
    WithoutConcat(p, r, k);
    assert p + Without(r, k) + [k] == p + (Without(r, k) + [k]);
  }

  lemma ShiftWindow(p: seq<Key>, r: seq<Key>, k: Key)
    requires NoDuplicates(r) && k !in r && r != []
    ensures Last(Touched(p + r, k), |r|) == r[1..] + [k]
  {
    WithoutConcat(p, r, k);
    WithoutMeans(r, k);
    LastShifted(if k in p then Without(p, k) else p, r, k);
  }

  lemma LastShifted(q: seq<Key>, r: seq<Key>, k: Key)
    requires r != []
    ensures Last(q + r + [k], |r|) == r[1..] + [k]
  {
  }

  lemma LastOfConcat(p: seq<Key>, r: seq<Key>, c: nat)
    requires |r| == c || (p == [] && |r| <= c)
    ensures Last(p + r, c) == r
  {
  }

  lemma {:induction false} NoDuplicatesTail(p: seq<Key>, r: seq<Key>)
    requires NoDuplicates(p + r)
    ensures NoDuplicates(r)
  {
    if p != [] {
      assert (p + r)[1..] == p[1..] + r;
      NoDuplicatesTail(p[1..], r);
    } else {
      assert p + r == r;
    }
  }

  lemma {:induction false} NoDuplicatesApart(p: seq<Key>, r: seq<Key>, k: Key)
    requires NoDuplicates(p + r) && k in r
    ensures k !in p && NoDuplicates(r)
    ensures |Touched(r, k)| == |r|
  {
    if p != [] {
      assert (p + r)[1..] == p[1..] + r;
      assert p == [p[0]] + p[1..];
      NoDuplicatesApart(p[1..], r, k);
    } else {
      assert p + r == r;
      TouchedMeans(r, k);
    }
  }

  lemma {:induction false} RecencyIsWindow(size: nat, ops: seq<Op>)
    requires size > 0
    ensures var s := Run(size, ops);
      Agree(s) && |s.cache| <= size && s.recency == Last(Stack(Uses(size, ops)), size)
  {
    if ops != [] {
      var before, op := ops[..|ops| - 1], ops[|ops| - 1];
      RecencyIsWindow(size, before);
      var s, uses := Run(size, before), Uses(size, before);
      AfterKeepsAgree(size, s, op);
      if !op.ClearOp? {
        StackMeans(uses, op.key);
        assert (uses + [op.key])[..|uses|] == uses;
        LastTouched(Stack(uses), op.key, size);
      }
    }
  }

  lemma {:induction false} VectorsAreLastSet(size: nat, ops: seq<Op>, k: Key)
    requires size > 0
    ensures k in Run(size, ops).cache ==> LastSet(ops, k) == Some(Run(size, ops).cache[k])
  {
    if ops != [] {
      VectorsAreLastSet(size, ops[..|ops| - 1], k);
    }
  }

  // The cache holds exactly the keys with fewer than size other keys used since their last
  // use, each with its last set vector; the list enumerates them without duplicates.
  lemma HoldsMostRecent(size: nat, ops: seq<Op>, k: Key)
    requires size > 0
    ensures var s, uses := Run(size, ops), Uses(size, ops);
      && Agree(s) && |s.cache| <= size
      && (k in s.cache <==> k in uses && |UsedAfter(uses, k)| < size)
      && (k in s.cache ==> LastSet(ops, k) == Some(s.cache[k]))
  {
    var uses := Uses(size, ops);
    RecencyIsWindow(size, ops);
    VectorsAreLastSet(size, ops, k);
    StackMeans(uses, k);
    InLast(Stack(uses), k, size);
    if k in uses {
      CountKeys(Following(Stack(uses), k), UsedAfter(uses, k));
    }
  }

  // So a lookup finds exactly the last vector set for a key that is still held.
  lemma FindsLastSet(size: nat, ops: seq<Op>, k: Key)
    requires size > 0
    ensures var uses := Uses(size, ops);
      Found(Run(size, ops), k) == if k in uses && |UsedAfter(uses, k)| < size then LastSet(ops, k) else None
  {
    HoldsMostRecent(size, ops, k);
  }

  // A use is a set, or a lookup of a key that a set since the last clear has left there.
  lemma UsesAreHits(size: nat, ops: seq<Op>, k: Key)
    requires size > 0
    ensures var uses := Uses(size, ops);
      Uses(size, ops + [GetOp(k)]) == if k in uses && |UsedAfter(uses, k)| < size then uses + [k] else uses
  {
    assert (ops + [GetOp(k)])[..|ops|] == ops;
    HoldsMostRecent(size, ops, k);
  }

  // Setting raises exactly in a cache that has no room for a single vector, and that one
  // stays empty; a cache with room never raises.
  lemma RaisesExactly(size: int, ops: seq<Op>, k: Key)
    ensures SetRaises(size, Run(size, ops), k) <==> size <= 0
    ensures size <= 0 ==> Run(size, ops) == State(map[], [])
  {
    if size <= 0 {
      NoRoom(size, ops);
    } else {
      RecencyIsWindow(size, ops);
      CountKeys(Run(size, ops).recency, Run(size, ops).cache.Keys);
    }
  }

  lemma {:induction false} NoRoom(size: int, ops: seq<Op>)
    requires size <= 0
    ensures Run(size, ops) == State(map[], [])
  {
    if ops != [] {
      NoRoom(size, ops[..|ops| - 1]);
    }
  }
}
