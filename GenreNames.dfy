/** Genre-name normalisation shared by the entity constructor and both backends:
    blank names dropped, the rest trimmed, then (for resolution) duplicates under
    the case-insensitive comparer removed, keeping the first spelling. */
module GenreNames {
  import opened Text
  import opened Seqs

  /** Every name is trimmed and non-blank. */
  ghost predicate AllClean(names: seq<string>) {
    forall i :: 0 <= i < |names| ==> IsTrimmed(names[i]) && !IsBlank(names[i])
  }

  /** One name through the cleaning stage: dropped when blank, else trimmed. */
  function CleanOne(n: string): seq<string> {
    if IsBlank(n) then [] else [Trim(n)]
  }

  /** The `Where(!IsNullOrWhiteSpace).Select(Trim)` stage: blank names dropped and
      the others trimmed, in input order. */
  function CleanNames(names: seq<string>): (r: seq<string>)
    ensures |r| <= |names|
  {
    if names == [] then [] else CleanNames(names[..|names| - 1]) + CleanOne(names[|names| - 1])
  }

  /** A permutation of clean names is clean. */
  lemma AllCleanPermutation(r: seq<string>, n: seq<string>)
    requires multiset(r) == multiset(n) && AllClean(n)
    ensures AllClean(r)
  {
    forall i | 0 <= i < |r| ensures IsTrimmed(r[i]) && !IsBlank(r[i]) {
      assert r[i] in multiset(n);
      var a :| 0 <= a < |n| && n[a] == r[i];
    }
  }

  lemma AllCleanAppend(a: seq<string>, b: seq<string>)
    requires AllClean(a) && AllClean(b)
    ensures AllClean(a + b)
  {
  }

  lemma CleanOneIsClean(n: string)
    ensures AllClean(CleanOne(n))
  {
    if !IsBlank(n) {
      TrimIsSlice(n);
      TrimIdempotent(n);
    }
  }

  /** Every name `CleanNames` yields is trimmed and non-blank. */
  lemma {:induction false} CleanNamesAllClean(names: seq<string>)
    ensures AllClean(CleanNames(names))
    decreases |names|
  {
    if names != [] {
      CleanNamesAllClean(names[..|names| - 1]);
      CleanOneIsClean(names[|names| - 1]);
      AllCleanAppend(CleanNames(names[..|names| - 1]), CleanOne(names[|names| - 1]));
    }
  }

  /** `CleanNames` works name by name: it commutes with concatenation, so it keeps
      the input order, and a single name is dropped iff blank, else trimmed. */
  lemma {:induction false} CleanNamesAppend(a: seq<string>, b: seq<string>)
    ensures CleanNames(a + b) == CleanNames(a) + CleanNames(b)
    decreases |b|
  {
    if b == [] {
      assert a + b == a;
    } else {
      assert (a + b)[..|a + b| - 1] == a + b[..|b| - 1];
      CleanNamesAppend(a, b[..|b| - 1]);
    }
  }

  lemma CleanNamesSingle(n: string)
    ensures CleanNames([n]) == CleanOne(n)
  {
    assert [n][..0] == [];
  }

  lemma CleanOneOfClean(n: string)
    requires IsTrimmed(n) && !IsBlank(n)
    ensures CleanOne(n) == [n]
  {
    TrimOfTrimmed(n);
  }

  lemma AllCleanSplit(names: seq<string>)
    requires names != [] && AllClean(names)
    ensures AllClean(names[..|names| - 1])
    ensures IsTrimmed(names[|names| - 1]) && !IsBlank(names[|names| - 1])
  {
  }

  lemma CleanNamesSnoc(names: seq<string>)
    requires names != []
    ensures CleanNames(names) == CleanNames(names[..|names| - 1]) + CleanOne(names[|names| - 1])
  {
  }

  lemma CleanNamesSnocSame(init: seq<string>, last: string)
    requires CleanNames(init) == init
    requires CleanOne(last) == [last]
    ensures CleanNames(init + [last]) == init + [last]
  {
    assert (init + [last])[..|init|] == init;
  }

  /** Names that are already clean come through unchanged, so cleaning twice is
      cleaning once. */
  lemma {:induction false} CleanNamesOfClean(names: seq<string>)
    requires AllClean(names)
    ensures CleanNames(names) == names
    decreases |names|
  {
    if names != [] {
      AllCleanSplit(names);
      CleanNamesOfClean(names[..|names| - 1]);
      CleanOneOfClean(names[|names| - 1]);
      CleanNamesSnocSame(names[..|names| - 1], names[|names| - 1]);
      assert names[..|names| - 1] + [names[|names| - 1]] == names;
    }
  }

  lemma CleanNamesIdempotent(names: seq<string>)
    ensures CleanNames(CleanNames(names)) == CleanNames(names)
  {
    CleanNamesAllClean(names);
    CleanNamesOfClean(CleanNames(names));
  }

  /** Every non-blank input name survives trimmed. */
  lemma {:induction false} CleanNamesCovers(names: seq<string>)
    ensures forall i :: 0 <= i < |names| && !IsBlank(names[i]) ==> Trim(names[i]) in CleanNames(names)
    decreases |names|
  {
    if names != [] {
      var k := |names| - 1;
      CleanNamesCovers(names[..k]);
      CleanNamesSnoc(names);
      forall i | 0 <= i < |names| && !IsBlank(names[i]) ensures Trim(names[i]) in CleanNames(names) {
        if i < k {
          assert names[i] == names[..k][i];
        }
      }
    }
  }

  /** Every output name is the trimmed form of a non-blank input name. */
  lemma {:induction false} CleanNamesFrom(names: seq<string>)
    ensures forall n :: n in CleanNames(names) ==>
      exists i :: 0 <= i < |names| && !IsBlank(names[i]) && n == Trim(names[i])
    decreases |names|
  {
    if names != [] {
      var k := |names| - 1;
      CleanNamesFrom(names[..k]);
      CleanNamesSnoc(names);
      forall n | n in CleanNames(names)
        ensures exists i :: 0 <= i < |names| && !IsBlank(names[i]) && n == Trim(names[i])
      {
        if n in CleanNames(names[..k]) {
          var i :| 0 <= i < k && !IsBlank(names[..k][i]) && n == Trim(names[..k][i]);
          assert names[i] == names[..k][i];
        } else {
          assert n in CleanOne(names[k]);
        }
      }
    }
  }

  lemma CleanNamesMembers(names: seq<string>)
    ensures forall i :: 0 <= i < |names| && !IsBlank(names[i]) ==> Trim(names[i]) in CleanNames(names)
    ensures forall n :: n in CleanNames(names) ==>
      exists i :: 0 <= i < |names| && !IsBlank(names[i]) && n == Trim(names[i])
  {
    CleanNamesCovers(names);
    CleanNamesFrom(names);
  }

  /** The normalised names: cleaned, then distinct under the case-insensitive
      comparer, the first spelling of each kept. */
  function Normalize(names: seq<string>): seq<string> {
    DistinctOn(CleanNames(names), Fold)
  }

  /** The names `Normalize` returns are clean, pairwise different under the fold,
      each the first spelling of its fold among the cleaned names, and they cover
      every non-blank input name. */
  lemma NormalizeSpec(names: seq<string>)
    ensures var r := Normalize(names);
      && AllClean(r)
      && KeysDistinct(r, Fold)
      && (forall i :: 0 <= i < |r| ==> r[i] in CleanNames(names))
      && (forall i :: 0 <= i < |names| && !IsBlank(names[i]) ==> HasKey(r, Fold, Fold(Trim(names[i]))))
      && (forall i :: 0 <= i < |r| ==>
            r[i] == CleanNames(names)[FirstIndexOf(CleanNames(names), Fold, Fold(r[i]))])
      && (forall i, j :: 0 <= i < j < |r| ==>
            FirstIndexOf(CleanNames(names), Fold, Fold(r[i])) < FirstIndexOf(CleanNames(names), Fold, Fold(r[j])))
  {
    NormalizeCovers(names);
    DistinctOnKeepsFirst(CleanNames(names), Fold);
  }

  /** The names `Normalize` returns are clean, pairwise different under the fold,
      cleaned input names, and cover every non-blank input name. */
  lemma NormalizeCovers(names: seq<string>)
    ensures var r := Normalize(names);
      && AllClean(r)
      && KeysDistinct(r, Fold)
      && (forall i :: 0 <= i < |r| ==> r[i] in CleanNames(names))
      && (forall i :: 0 <= i < |names| && !IsBlank(names[i]) ==> HasKey(r, Fold, Fold(Trim(names[i]))))
  {
    var c := CleanNames(names);
    var r := Normalize(names);
    CleanNamesAllClean(names);
    DistinctOnSpec(c, Fold);
    CleanNamesMembers(names);
    forall i | 0 <= i < |names| && !IsBlank(names[i]) ensures HasKey(r, Fold, Fold(Trim(names[i]))) {
      var j :| 0 <= j < |c| && c[j] == Trim(names[i]);
    }
  }

  /** Normalising is idempotent. */
  lemma NormalizeIdempotent(names: seq<string>)
    ensures Normalize(Normalize(names)) == Normalize(names)
  {
    var r := Normalize(names);
    NormalizeSpec(names);
    CleanNamesOfClean(r);
    DistinctOnOfDistinct(r, Fold);
  }

  /** Of two clean names with the same key, normalising keeps the first. */
  lemma NormalizeSameKeyPair(a: string, b: string)
    requires AllClean([a, b]) && Fold(a) == Fold(b)
    ensures Normalize([a, b]) == [a]
  {
    CleanNamesOfClean([a, b]);
    DistinctOnSnoc([], a, Fold);
    assert [] + [a] == [a];
    DistinctOnSnoc([a], b, Fold);
    assert [a] + [b] == [a, b];
    assert Fold([a][0]) == Fold(b);
  }

  /** No name survives exactly when every input name is blank. */
  lemma NormalizeEmptyIffAllBlank(names: seq<string>)
    ensures Normalize(names) == [] <==> forall i :: 0 <= i < |names| ==> IsBlank(names[i])
  {
    NormalizeSpec(names);
    CleanNamesMembers(names);
    DistinctOnSpec(CleanNames(names), Fold);
    if Normalize(names) == [] {
      forall i | 0 <= i < |names| ensures IsBlank(names[i]) {
        assert !HasKey(Normalize(names), Fold, Fold(Trim(names[i])));
      }
    } else {
      var n := Normalize(names)[0];
      assert n in CleanNames(names);
    }
  }

  lemma FoldLeTotalPreorder()
    ensures TotalPreorder(FoldLe)
  {
    forall a: string, b: string ensures FoldLe(a, b) || FoldLe(b, a) {
      StringLeTotal(Fold(a), Fold(b));
    }
    forall a: string, b: string, c: string | FoldLe(a, b) && FoldLe(b, c) ensures FoldLe(a, c) {
      StringLeTransitive(Fold(a), Fold(b), Fold(c));
    }
  }

  /** A permutation of clean, key-distinct names is clean and key-distinct, and
      has the same keys. */
  lemma PermutationKeepsNames(r: seq<string>, n: seq<string>)
    requires multiset(r) == multiset(n) && AllClean(n) && KeysDistinct(n, Fold)
    ensures AllClean(r) && KeysDistinct(r, Fold)
    ensures forall i :: 0 <= i < |n| ==> HasKey(r, Fold, Fold(n[i]))
  {
    forall i | 0 <= i < |r| ensures IsTrimmed(r[i]) && !IsBlank(r[i]) {
      assert r[i] in multiset(n);
    }
    PermutationKeysDistinct(r, n, Fold);
    forall i | 0 <= i < |n| ensures HasKey(r, Fold, Fold(n[i])) {
      assert n[i] in multiset(r);
    }
  }

  /** The normalised names ordered ignoring case: clean, pairwise different
      ignoring case, ascending, and one spelling for the fold of every non-blank
      input name. */
  lemma SortNormalizedSpec(names: seq<string>)
    ensures var r := SortBy(Normalize(names), FoldLe);
      && AllClean(r) && KeysDistinct(r, Fold) && SortedBy(r, FoldLe)
      && multiset(r) == multiset(Normalize(names))
      && (forall i :: 0 <= i < |names| && !IsBlank(names[i]) ==> HasKey(r, Fold, Fold(Trim(names[i]))))
  {
    var n := Normalize(names);
    var r := SortBy(n, FoldLe);
    NormalizeSpec(names);
    FoldLeTotalPreorder();
    SortBySorted(n, FoldLe);
    PermutationKeepsNames(r, n);
    forall i | 0 <= i < |names| && !IsBlank(names[i]) ensures HasKey(r, Fold, Fold(Trim(names[i]))) {
      var m :| 0 <= m < |n| && Fold(n[m]) == Fold(Trim(names[i]));
    }
  }
}
