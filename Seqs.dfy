/** The LINQ pipeline stages the core uses, as functions on sequences:
    `Where` (Filter), `Distinct` with a key comparer (DistinctOn, keeping the first
    element of each key) and `OrderBy` (SortBy, a stable sort). */
module Seqs {

  /** `le` is a total preorder: any two elements compare, and comparisons chain. */
  ghost predicate TotalPreorder<T(!new)>(le: (T, T) -> bool) {
    && (forall a, b :: le(a, b) || le(b, a))
    && (forall a, b, c :: le(a, b) && le(b, c) ==> le(a, c))
  }

  /** `xs` is in ascending order under `le`. */
  ghost predicate SortedBy<T>(xs: seq<T>, le: (T, T) -> bool) {
    forall i, j :: 0 <= i < j < |xs| ==> le(xs[i], xs[j])
  }

  /** A non-empty sequence is its prefix followed by its last element. */
  lemma SplitLast<T>(xs: seq<T>)
    requires xs != []
    ensures xs[..|xs| - 1] + [xs[|xs| - 1]] == xs
  {
  }

  /** `Where`: the elements satisfying `p`, in their order. */
  function Filter<T>(xs: seq<T>, p: T -> bool): (r: seq<T>)
    ensures |r| <= |xs|
    ensures forall i :: 0 <= i < |r| ==> r[i] in xs && p(r[i])
    ensures forall i :: 0 <= i < |xs| && p(xs[i]) ==> xs[i] in r
  {
    if xs == [] then []
    else
      var init := xs[..|xs| - 1];
      assert xs == init + [xs[|xs| - 1]];
      Filter(init, p) + if p(xs[|xs| - 1]) then [xs[|xs| - 1]] else []
  }

  /** Filtering commutes with concatenation, so it keeps the input order. */
  lemma {:induction false} FilterAppend<T>(a: seq<T>, b: seq<T>, p: T -> bool)
    ensures Filter(a + b, p) == Filter(a, p) + Filter(b, p)
    decreases |b|
  {
    if b == [] {
      assert a + b == a;
    } else {
      var b' := b[..|b| - 1];
      assert (a + b)[..|a + b| - 1] == a + b';
      FilterAppend(a, b', p);
    }
  }

  /** Elements of `xs` equivalent to `z` under `le`, in their order. */
  function Block<T>(xs: seq<T>, le: (T, T) -> bool, z: T): seq<T> {
    if xs == [] then []
    else Block(xs[..|xs| - 1], le, z) + if le(xs[|xs| - 1], z) && le(z, xs[|xs| - 1]) then [xs[|xs| - 1]] else []
  }

  /** Inserts `x` after the last element of `s` that is not above it. */
  function Insert<T>(s: seq<T>, x: T, le: (T, T) -> bool): (r: seq<T>)
    ensures multiset(r) == multiset(s) + multiset{x}
    ensures |r| == |s| + 1
  {
    if s == [] then [x]
    else if le(s[|s| - 1], x) then s + [x]
    else
      assert s == s[..|s| - 1] + [s[|s| - 1]];
      Insert(s[..|s| - 1], x, le) + [s[|s| - 1]]
  }

  /** `OrderBy`: a stable insertion sort under `le`. */
  function SortBy<T>(xs: seq<T>, le: (T, T) -> bool): (r: seq<T>)
    ensures multiset(r) == multiset(xs)
    ensures |r| == |xs|
  {
    if xs == [] then []
    else
      assert xs == xs[..|xs| - 1] + [xs[|xs| - 1]];
      Insert(SortBy(xs[..|xs| - 1], le), xs[|xs| - 1], le)
  }

  /** Appending an element not below any element keeps a sequence ascending. */
  lemma SortedSnoc<T>(xs: seq<T>, y: T, le: (T, T) -> bool)
    requires SortedBy(xs, le)
    requires forall i :: 0 <= i < |xs| ==> le(xs[i], y)
    ensures SortedBy(xs + [y], le)
  {
    var ys := xs + [y];
    forall i, j | 0 <= i < j < |ys| ensures le(ys[i], ys[j]) {
      assert ys[i] == xs[i];
      if j < |xs| {
        assert ys[j] == xs[j];
      }
    }
  }

  lemma {:induction false} InsertSorted<T(!new)>(s: seq<T>, x: T, le: (T, T) -> bool)
    requires TotalPreorder(le) && SortedBy(s, le)
    ensures SortedBy(Insert(s, x, le), le)
    decreases |s|
  {
    if s == [] {
    } else if le(s[|s| - 1], x) {
      forall i | 0 <= i < |s| ensures le(s[i], x) {
        if i < |s| - 1 {
          assert le(s[i], s[|s| - 1]);
        }
      }
      SortedSnoc(s, x, le);
    } else {
      var last := s[|s| - 1];
      var init := s[..|s| - 1];
      assert SortedBy(init, le) by {
        forall i, j | 0 <= i < j < |init| ensures le(init[i], init[j]) {
          assert init[i] == s[i] && init[j] == s[j];
        }
      }
      InsertSorted(init, x, le);
      var r := Insert(init, x, le);
      assert le(x, last);
      forall i | 0 <= i < |r| ensures le(r[i], last) {
        assert r[i] in multiset(r);
        if r[i] != x {
          assert r[i] in multiset(init);
          var k :| 0 <= k < |init| && init[k] == r[i];
          assert le(s[k], s[|s| - 1]);
        }
      }
      SortedSnoc(r, last, le);
    }
  }

  /** `SortBy` returns an ascending permutation of its input. */
  lemma {:induction false} SortBySorted<T(!new)>(xs: seq<T>, le: (T, T) -> bool)
    requires TotalPreorder(le)
    ensures SortedBy(SortBy(xs, le), le)
    ensures multiset(SortBy(xs, le)) == multiset(xs)
    decreases |xs|
  {
    if xs != [] {
      SortBySorted(xs[..|xs| - 1], le);
      InsertSorted(SortBy(xs[..|xs| - 1], le), xs[|xs| - 1], le);
    }
  }

  lemma {:induction false} BlockAppend<T>(a: seq<T>, b: seq<T>, le: (T, T) -> bool, z: T)
    ensures Block(a + b, le, z) == Block(a, le, z) + Block(b, le, z)
    decreases |b|
  {
    if b == [] {
      assert a + b == a;
    } else {
      assert (a + b)[..|a + b| - 1] == a + b[..|b| - 1];
      BlockAppend(a, b[..|b| - 1], le, z);
    }
  }

  lemma BlockSingleton<T>(x: T, le: (T, T) -> bool, z: T)
    ensures Block([x], le, z) == if le(x, z) && le(z, x) then [x] else []
  {
    assert [x][..0] == [];
  }

  /** Two pieces of which one is empty can be appended in either order. */
  lemma SwapEmpty<T>(a: seq<T>, p: seq<T>, q: seq<T>)
    requires p == [] || q == []
    ensures a + p + q == a + q + p
  {
    if p == [] {
      assert a + p == a;
      assert a + q + p == a + q;
    } else {
      assert a + q == a;
      assert a + p + q == a + p;
    }
  }

  /** Inserting below the last element inserts into the rest. */
  lemma InsertBelowLast<T>(s: seq<T>, x: T, le: (T, T) -> bool)
    requires s != [] && !le(s[|s| - 1], x)
    ensures Insert(s, x, le) == Insert(s[..|s| - 1], x, le) + [s[|s| - 1]]
  {
  }

  lemma {:induction false} InsertBlock<T(!new)>(s: seq<T>, x: T, le: (T, T) -> bool, z: T)
    requires TotalPreorder(le)
    ensures Block(Insert(s, x, le), le, z) == Block(s, le, z) + Block([x], le, z)
    decreases |s|
  {
    if s == [] {
      assert Insert(s, x, le) == [] + [x];
    } else if le(s[|s| - 1], x) {
      BlockAppend(s, [x], le, z);
    } else {
      var last := s[|s| - 1];
      var init := s[..|s| - 1];
      SplitLast(s);
      InsertBelowLast(s, x, le);
      InsertBlock(init, x, le, z);
      BlockAppend(Insert(init, x, le), [last], le, z);
      BlockAppend(init, [last], le, z);
      BlockSingleton(x, le, z);
      BlockSingleton(last, le, z);
      assert !(le(last, z) && le(z, x));
      SwapEmpty(Block(init, le, z), Block([x], le, z), Block([last], le, z));
    }
  }

  /** `SortBy` is stable: elements that compare equal keep their input order. */
  lemma {:induction false} SortByStable<T(!new)>(xs: seq<T>, le: (T, T) -> bool, z: T)
    requires TotalPreorder(le)
    ensures Block(SortBy(xs, le), le, z) == Block(xs, le, z)
    decreases |xs|
  {
    if xs != [] {
      var init := xs[..|xs| - 1];
      var last := xs[|xs| - 1];
      calc {
        Block(SortBy(xs, le), le, z);
        Block(Insert(SortBy(init, le), last, le), le, z);
        { InsertBlock(SortBy(init, le), last, le, z); }
        Block(SortBy(init, le), le, z) + Block([last], le, z);
        { SortByStable(init, le, z); }
        Block(init, le, z) + Block([last], le, z);
        { BlockAppend(init, [last], le, z); assert init + [last] == xs; }
        Block(xs, le, z);
      }
    }
  }

  /** Sorting an already ascending sequence leaves it as it is. */
  lemma {:induction false} SortByOfSorted<T>(xs: seq<T>, le: (T, T) -> bool)
    requires SortedBy(xs, le)
    ensures SortBy(xs, le) == xs
    decreases |xs|
  {
    if xs != [] {
      var init := xs[..|xs| - 1];
      assert SortedBy(init, le);
      SortByOfSorted(init, le);
      if init != [] {
        assert le(init[|init| - 1], xs[|xs| - 1]);
      }
      assert init + [xs[|xs| - 1]] == xs;
    }
  }

  /** Some element of `xs` has key `k`. */
  predicate HasKey<T, K(==)>(xs: seq<T>, key: T -> K, k: K) {
    exists i :: 0 <= i < |xs| && key(xs[i]) == k
  }

  lemma HasKeySnoc<T, K>(init: seq<T>, x: T, key: T -> K, k: K)
    ensures HasKey(init + [x], key, k) <==> HasKey(init, key, k) || key(x) == k
  {
    var xs := init + [x];
    if HasKey(init, key, k) {
      var i :| 0 <= i < |init| && key(init[i]) == k;
      assert xs[i] == init[i];
    }
    if HasKey(xs, key, k) && key(x) != k {
      var i :| 0 <= i < |xs| && key(xs[i]) == k;
      assert xs[i] == init[i];
    }
    assert xs[|init|] == x;
  }

  /** `Distinct` with a key: the first element of each key, in input order. */
  function DistinctOn<T, K(==)>(xs: seq<T>, key: T -> K): seq<T> {
    if xs == [] then []
    else
      var r := DistinctOn(xs[..|xs| - 1], key);
      var x := xs[|xs| - 1];
      if HasKey(r, key, key(x)) then r else r + [x]
  }

  /** Two elements with different keys have distinct keys. */
  lemma PairKeysDistinct<T, K>(a: T, b: T, key: T -> K)
    requires key(a) != key(b)
    ensures KeysDistinct([a, b], key)
  {
  }

  /** One more element: kept exactly when no kept element has its key. */
  lemma DistinctOnSnoc<T, K>(xs: seq<T>, x: T, key: T -> K)
    ensures DistinctOn(xs + [x], key) ==
      (if HasKey(DistinctOn(xs, key), key, key(x)) then DistinctOn(xs, key) else DistinctOn(xs, key) + [x])
  {
    var ys := xs + [x];
    assert ys[..|ys| - 1] == xs;
  }

  /** The keys in `xs` are pairwise distinct. */
  ghost predicate KeysDistinct<T, K>(xs: seq<T>, key: T -> K) {
    forall i, j :: 0 <= i < j < |xs| ==> key(xs[i]) != key(xs[j])
  }

  /** `DistinctOn` keeps only input elements, keeps one element of every key that
      occurs, and never two elements with the same key. */
  lemma {:induction false} DistinctOnSpec<T, K>(xs: seq<T>, key: T -> K)
    ensures var r := DistinctOn(xs, key);
      && (forall i :: 0 <= i < |r| ==> r[i] in xs)
      && (forall i :: 0 <= i < |xs| ==> HasKey(r, key, key(xs[i])))
      && KeysDistinct(r, key)
      && |r| <= |xs|
    decreases |xs|
  {
    if xs != [] {
      var init := xs[..|xs| - 1];
      var x := xs[|xs| - 1];
      var r0 := DistinctOn(init, key);
      var r := DistinctOn(xs, key);
      DistinctOnSpec(init, key);
      assert xs == init + [x];
      if HasKey(r0, key, key(x)) {
        assert r == r0;
        forall i | 0 <= i < |xs| ensures HasKey(r, key, key(xs[i])) {
          if i < |init| {
            assert xs[i] == init[i];
          }
        }
      } else {
        assert r == r0 + [x];
        forall i | 0 <= i < |r| ensures r[i] in xs {
          if i < |r0| {
            assert r[i] == r0[i];
          }
        }
        forall i | 0 <= i < |xs| ensures HasKey(r, key, key(xs[i])) {
          if i < |init| {
            assert xs[i] == init[i];
            var j :| 0 <= j < |r0| && key(r0[j]) == key(init[i]);
            assert r[j] == r0[j];
          } else {
            assert r[|r0|] == x;
          }
        }
        forall i, j | 0 <= i < j < |r| ensures key(r[i]) != key(r[j]) {
          if j < |r0| {
            assert r[i] == r0[i] && r[j] == r0[j];
          } else {
            assert r[i] == r0[i];
          }
        }
      }
    }
  }

  /** The index of the first element of `xs` with key `k`. */
  ghost function FirstIndexOf<T, K>(xs: seq<T>, key: T -> K, k: K): (i: nat)
    requires HasKey(xs, key, k)
    ensures i < |xs| && key(xs[i]) == k
  {
    if key(xs[0]) == k then 0
    else
      assert HasKey(xs[1..], key, k) by {
        var j :| 0 <= j < |xs| && key(xs[j]) == k;
        assert xs[1..][j - 1] == xs[j];
      }
      1 + FirstIndexOf(xs[1..], key, k)
  }

  /** No element before `FirstIndexOf` has the key. */
  lemma {:induction false} FirstIndexOfIsFirst<T, K>(xs: seq<T>, key: T -> K, k: K)
    requires HasKey(xs, key, k)
    ensures forall j :: 0 <= j < FirstIndexOf(xs, key, k) ==> key(xs[j]) != k
    decreases |xs|
  {
    if key(xs[0]) != k {
      var j :| 0 <= j < |xs| && key(xs[j]) == k;
      assert xs[1..][j - 1] == xs[j];
      FirstIndexOfIsFirst(xs[1..], key, k);
      forall j | 1 <= j < FirstIndexOf(xs, key, k) ensures key(xs[j]) != k {
        assert xs[j] == xs[1..][j - 1];
      }
    }
  }

  /** Each element of `r` is the first element of `xs` with its key, and `r` lists
      them in the order their keys first occur in `xs`. */
  ghost predicate KeepsFirst<T, K>(r: seq<T>, xs: seq<T>, key: T -> K) {
    (forall i :: 0 <= i < |r| ==>
      HasKey(xs, key, key(r[i])) && r[i] == xs[FirstIndexOf(xs, key, key(r[i]))])
    && (forall i, j :: 0 <= i < j < |r| ==>
      HasKey(xs, key, key(r[i])) && HasKey(xs, key, key(r[j]))
      && FirstIndexOf(xs, key, key(r[i])) < FirstIndexOf(xs, key, key(r[j])))
  }

  lemma {:induction false} DistinctOnKeepsFirst<T, K>(xs: seq<T>, key: T -> K)
    ensures KeepsFirst(DistinctOn(xs, key), xs, key)
    decreases |xs|
  {
    if xs != [] {
      var init := xs[..|xs| - 1];
      var x := xs[|xs| - 1];
      DistinctOnKeepsFirst(init, key);
      assert xs == init + [x];
      KeepsFirstGrow(DistinctOn(init, key), init, x, key);
      if !HasKey(DistinctOn(init, key), key, key(x)) {
        DistinctOnSpec(init, key);
        KeepsFirstNew(DistinctOn(init, key), init, x, key);
      }
    }
  }

  /** Appending to `xs` keeps first elements first. */
  lemma KeepsFirstGrow<T, K>(r: seq<T>, xs: seq<T>, x: T, key: T -> K)
    requires KeepsFirst(r, xs, key)
    ensures KeepsFirst(r, xs + [x], key)
    ensures forall i :: 0 <= i < |r| ==> FirstIndexOf(xs + [x], key, key(r[i])) < |xs|
  {
    var xs1 := xs + [x];
    forall i | 0 <= i < |r|
      ensures HasKey(xs1, key, key(r[i]))
      ensures FirstIndexOf(xs1, key, key(r[i])) == FirstIndexOf(xs, key, key(r[i])) < |xs|
      ensures r[i] == xs1[FirstIndexOf(xs1, key, key(r[i]))]
    {
      FirstIndexPrefix(xs, [x], key, key(r[i]));
      assert xs1[FirstIndexOf(xs, key, key(r[i]))] == xs[FirstIndexOf(xs, key, key(r[i]))];
    }
  }

  /** An element whose key is new is the first of its key. */
  lemma KeepsFirstNew<T, K>(r: seq<T>, xs: seq<T>, x: T, key: T -> K)
    requires KeepsFirst(r, xs + [x], key)
    requires forall i :: 0 <= i < |r| ==> FirstIndexOf(xs + [x], key, key(r[i])) < |xs|
    requires !HasKey(xs, key, key(x))
    ensures KeepsFirst(r + [x], xs + [x], key)
  {
    var r1 := r + [x];
    var xs1 := xs + [x];
    FirstIndexPrefixNotIn(xs, x, key);
    forall i | 0 <= i < |r1|
      ensures HasKey(xs1, key, key(r1[i])) && r1[i] == xs1[FirstIndexOf(xs1, key, key(r1[i]))]
    {
      if i < |r| {
        assert r1[i] == r[i];
      } else {
        assert r1[i] == x == xs1[|xs|];
      }
    }
    forall i, j | 0 <= i < j < |r1|
      ensures HasKey(xs1, key, key(r1[i])) && HasKey(xs1, key, key(r1[j]))
      ensures FirstIndexOf(xs1, key, key(r1[i])) < FirstIndexOf(xs1, key, key(r1[j]))
    {
      assert r1[i] == r[i];
      if j < |r| {
        assert r1[j] == r[j];
      }
    }
  }

  lemma {:induction false} FirstIndexPrefix<T, K>(a: seq<T>, b: seq<T>, key: T -> K, k: K)
    requires HasKey(a, key, k)
    ensures HasKey(a + b, key, k)
    ensures FirstIndexOf(a + b, key, k) == FirstIndexOf(a, key, k)
    decreases |a|
  {
    var j :| 0 <= j < |a| && key(a[j]) == k;
    assert (a + b)[j] == a[j];
    if key(a[0]) != k {
      assert (a + b)[1..] == a[1..] + b;
      assert a[1..][j - 1] == a[j];
      FirstIndexPrefix(a[1..], b, key, k);
    }
  }

  lemma FirstIndexPrefixNotIn<T, K>(a: seq<T>, x: T, key: T -> K)
    requires !HasKey(a, key, key(x))
    ensures HasKey(a + [x], key, key(x))
    ensures FirstIndexOf(a + [x], key, key(x)) == |a|
  {
    assert (a + [x])[|a|] == x;
  }

  /** `DistinctOn` leaves a sequence whose keys are already distinct as it is, so
      applying it twice is applying it once. */
  lemma {:induction false} DistinctOnOfDistinct<T, K>(xs: seq<T>, key: T -> K)
    requires KeysDistinct(xs, key)
    ensures DistinctOn(xs, key) == xs
    decreases |xs|
  {
    if xs != [] {
      var init := xs[..|xs| - 1];
      var x := xs[|xs| - 1];
      assert KeysDistinct(init, key) by {
        forall i, j | 0 <= i < j < |init| ensures key(init[i]) != key(init[j]) {
          assert init[i] == xs[i] && init[j] == xs[j];
        }
      }
      DistinctOnOfDistinct(init, key);
      LastKeyIsNew(xs, key);
      assert DistinctOn(xs, key) == DistinctOn(init, key) + [x];
      assert init + [x] == xs;
    }
  }

  /** Dropping the last element keeps the keys distinct, and the last key differs
      from every earlier one. */
  lemma KeysDistinctSnoc<T, K>(init: seq<T>, last: T, key: T -> K)
    requires KeysDistinct(init + [last], key)
    ensures KeysDistinct(init, key)
    ensures forall j :: 0 <= j < |init| ==> key(init[j]) != key(last)
  {
    var xs := init + [last];
    forall i, j | 0 <= i < j < |init| ensures key(init[i]) != key(init[j]) {
      assert init[i] == xs[i] && init[j] == xs[j];
    }
    forall j | 0 <= j < |init| ensures key(init[j]) != key(last) {
      assert init[j] == xs[j] && last == xs[|init|];
    }
  }

  lemma KeysDistinctSnocIntro<T, K>(init: seq<T>, last: T, key: T -> K)
    requires KeysDistinct(init, key)
    requires forall j :: 0 <= j < |init| ==> key(init[j]) != key(last)
    ensures KeysDistinct(init + [last], key)
  {
    var xs := init + [last];
    forall i, j | 0 <= i < j < |xs| ensures key(xs[i]) != key(xs[j]) {
      assert xs[i] == init[i];
      if j < |init| {
        assert xs[j] == init[j];
      } else {
        assert xs[j] == last;
      }
    }
  }

  /** A key is new to a key-distinct sequence exactly when appending its element
      keeps the keys distinct. */
  lemma KeysDistinctSnocIff<T, K>(init: seq<T>, last: T, key: T -> K)
    requires KeysDistinct(init, key)
    ensures KeysDistinct(init + [last], key) <==> !HasKey(init, key, key(last))
  {
    if KeysDistinct(init + [last], key) {
      KeysDistinctSnoc(init, last, key);
    } else if !HasKey(init, key, key(last)) {
      KeysDistinctSnocIntro(init, last, key);
    }
  }

  /** In a key-distinct sequence each element occurs once. */
  lemma CountOnce<T, K>(n: seq<T>, a: int, key: T -> K)
    requires KeysDistinct(n, key) && 0 <= a < |n|
    ensures multiset(n)[n[a]] == 1
  {
    assert n == n[..a] + [n[a]] + n[a + 1..];
    assert n[a] !in multiset(n[..a]);
    assert n[a] !in multiset(n[a + 1..]);
  }

  /** A permutation of a key-distinct sequence is key-distinct. */
  lemma PermutationKeysDistinct<T, K>(r: seq<T>, n: seq<T>, key: T -> K)
    requires multiset(r) == multiset(n) && KeysDistinct(n, key)
    ensures KeysDistinct(r, key)
  {
    forall i, j | 0 <= i < j < |r| ensures key(r[i]) != key(r[j]) {
      PermutationPairDistinct(r, n, key, i, j);
    }
  }

  lemma PermutationPairDistinct<T, K>(r: seq<T>, n: seq<T>, key: T -> K, i: int, j: int)
    requires multiset(r) == multiset(n) && KeysDistinct(n, key)
    requires 0 <= i < j < |r|
    ensures key(r[i]) != key(r[j])
  {
    assert r[i] in multiset(n) && r[j] in multiset(n);
    var a :| 0 <= a < |n| && n[a] == r[i];
    var b :| 0 <= b < |n| && n[b] == r[j];
    if a == b {
      assert multiset(r)[r[i]] >= 2 by {
        assert r == r[..i] + [r[i]] + r[i + 1..];
        assert r[i + 1..][j - i - 1] == r[j];
      }
      CountOnce(n, a, key);
    }
  }

  /** A permutation has the same keys. */
  lemma PermutationHasKey<T, K>(r: seq<T>, n: seq<T>, key: T -> K, k: K)
    requires multiset(r) == multiset(n) && HasKey(n, key, k)
    ensures HasKey(r, key, k)
  {
    var a :| 0 <= a < |n| && key(n[a]) == k;
    assert n[a] in multiset(r);
    var b :| 0 <= b < |r| && r[b] == n[a];
  }

  /** Filtering keeps the keys distinct. */
  lemma {:induction false} FilterKeysDistinct<T, K>(xs: seq<T>, p: T -> bool, key: T -> K)
    requires KeysDistinct(xs, key)
    ensures KeysDistinct(Filter(xs, p), key)
    decreases |xs|
  {
    if xs != [] {
      var init := xs[..|xs| - 1];
      var x := xs[|xs| - 1];
      assert xs == init + [x];
      KeysDistinctSnoc(init, x, key);
      FilterKeysDistinct(init, p, key);
      var r0 := Filter(init, p);
      if p(x) {
        forall i | 0 <= i < |r0| ensures key(r0[i]) != key(x) {
          var j :| 0 <= j < |init| && init[j] == r0[i];
        }
        KeysDistinctSnocIntro(r0, x, key);
      }
    }
  }

  lemma LastKeyIsNew<T, K>(xs: seq<T>, key: T -> K)
    requires xs != [] && KeysDistinct(xs, key)
    ensures !HasKey(xs[..|xs| - 1], key, key(xs[|xs| - 1]))
  {
    var init := xs[..|xs| - 1];
    forall j | 0 <= j < |init| ensures key(init[j]) != key(xs[|xs| - 1]) {
      assert init[j] == xs[j];
    }
  }

  lemma DistinctOnIdempotent<T, K>(xs: seq<T>, key: T -> K)
    ensures DistinctOn(DistinctOn(xs, key), key) == DistinctOn(xs, key)
  {
    DistinctOnSpec(xs, key);
    DistinctOnOfDistinct(DistinctOn(xs, key), key);
  }

  /** The keys occurring in a sequence. */
  function KeySet<T, K(==)>(xs: seq<T>, key: T -> K): set<K>
    decreases |xs|
  {
    if xs == [] then {} else KeySet(xs[..|xs| - 1], key) + {key(xs[|xs| - 1])}
  }

  /** A key is in `KeySet` exactly when some element has it. */
  lemma {:induction false} KeySetHasKey<T, K>(xs: seq<T>, key: T -> K, k: K)
    ensures k in KeySet(xs, key) <==> HasKey(xs, key, k)
    decreases |xs|
  {
    if xs != [] {
      KeySetHasKey(xs[..|xs| - 1], key, k);
      HasKeySnoc(xs[..|xs| - 1], xs[|xs| - 1], key, k);
      SplitLast(xs);
    }
  }

  /** A key-distinct sequence has as many keys as elements. */
  lemma {:induction false} KeySetSize<T, K>(xs: seq<T>, key: T -> K)
    requires KeysDistinct(xs, key)
    ensures |KeySet(xs, key)| == |xs|
    decreases |xs|
  {
    if xs != [] {
      var init, last := xs[..|xs| - 1], xs[|xs| - 1];
      assert KeysDistinct(init, key) by {
        assert forall i :: 0 <= i < |init| ==> init[i] == xs[i];
      }
      KeySetSize(init, key);
      forall i | 0 <= i < |init| ensures key(init[i]) != key(last) {
        assert init[i] == xs[i];
      }
      KeySetHasKey(init, key, key(last));
    }
  }

  /** Two key-distinct sequences with the same keys have the same length. */
  lemma SameKeysSameLength<T, K>(r: seq<T>, ys: seq<T>, key: T -> K)
    requires KeysDistinct(r, key) && KeysDistinct(ys, key)
    requires forall i :: 0 <= i < |r| ==> HasKey(ys, key, key(r[i]))
    requires forall j :: 0 <= j < |ys| ==> HasKey(r, key, key(ys[j]))
    ensures |r| == |ys|
  {
    forall k | k in KeySet(r, key) ensures k in KeySet(ys, key) {
      KeySetHasKey(r, key, k);
      KeySetHasKey(ys, key, k);
      var i :| 0 <= i < |r| && key(r[i]) == k;
      assert HasKey(ys, key, key(r[i]));
    }
    forall k | k in KeySet(ys, key) ensures k in KeySet(r, key) {
      KeySetHasKey(r, key, k);
      KeySetHasKey(ys, key, k);
      var j :| 0 <= j < |ys| && key(ys[j]) == k;
      assert HasKey(r, key, key(ys[j]));
    }
    assert KeySet(r, key) == KeySet(ys, key);
    KeySetSize(r, key);
    KeySetSize(ys, key);
  }
}
