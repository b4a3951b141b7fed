/** Database initialisation: when the Books table is empty, five books are built
    in memory with a genre cache keyed ignoring case, so that books naming the
    same genre share one new `Genre`, and then everything is saved at once. The
    save inserts every cached genre as a new row, so it fails on the unique name
    index whenever one of those names is already stored. */
module Seeding {
  import opened Text
  import opened Seqs
  import opened Entities
  import opened Schema
  import EfRepo

  /** One book of the seed data. */
  datatype SeedBook = SeedBook(title: string, author: string, year: int, genres: seq<string>)

  /** The seed data, in order. "Роман" is named by the second and the fourth book. */
  const SeedBooks: seq<SeedBook> := [
    SeedBook("1984", "Джордж Оруэлл", 1949, ["Антиутопия", "Дистопия"]),
    SeedBook("Преступление и наказание", "Фёдор Достоевский", 1866, ["Роман"]),
    SeedBook("Властелин колец", "Джон Толкин", 1954, ["Фэнтези", "Приключения"]),
    SeedBook("Мастер и Маргарита", "Михаил Булгаков", 1966, ["Мистика", "Роман"]),
    SeedBook("Три товарища", "Эрих Мария Ремарк", 1936, ["Драма"])
  ]

  /** The row a seed book is stored as. */
  function SeedRow(s: SeedBook): BookRow {
    BookRow(s.title, s.author, s.year)
  }

  /** Every genre name of the seed books, book by book, in order. */
  function SeedNames(seeds: seq<SeedBook>): seq<string> {
    if seeds == [] then [] else SeedNames(seeds[..|seeds| - 1]) + seeds[|seeds| - 1].genres
  }

  // ---------------------------------------------------------------------------
  // The in-memory build: the genre cache.
  // ---------------------------------------------------------------------------

  /** The genre cache: the position of each new genre in `pending`, keyed by the
      comparer's key of its name, and the new genres' names in creation order.
      The functions below take the comparer's key function `fold` as a parameter;
      the initialiser uses `Fold`, the case-insensitive comparer. */
  datatype Cache = Cache(index: map<string, nat>, pending: seq<string>)

  /** The cache maps the key of every pending name to that name's position, and
      nothing else. */
  ghost predicate CacheOk(c: Cache, fold: string -> string) {
    && (forall i :: 0 <= i < |c.pending| ==> fold(c.pending[i]) in c.index && c.index[fold(c.pending[i])] == i)
    && (forall key :: key in c.index ==> c.index[key] < |c.pending| && fold(c.pending[c.index[key]]) == key)
  }

  /** `TryGetValue` for one name: the cached genre when its key is present, else a
      new genre, remembered under that key. The result is the genre's position. */
  function Pick(c: Cache, name: string, fold: string -> string): (Cache, nat) {
    var key := fold(name);
    if key in c.index then (c, c.index[key])
    else (Cache(c.index[key := |c.pending|], c.pending + [name]), |c.pending|)
  }

  /** The inner loop: the genres of one seed book, picked in order. */
  function PickAll(c: Cache, names: seq<string>, fold: string -> string): (Cache, seq<nat>)
    decreases |names|
  {
    if names == [] then (c, [])
    else
      var (c1, ks) := PickAll(c, names[..|names| - 1], fold);
      var (c2, k) := Pick(c1, names[|names| - 1], fold);
      (c2, ks + [k])
  }

  /** The outer loop: the genre picks of each seed book, in order. */
  function PlanBooks(c: Cache, seeds: seq<SeedBook>, fold: string -> string): (Cache, seq<seq<nat>>)
    decreases |seeds|
  {
    if seeds == [] then (c, [])
    else
      var (c1, ps) := PlanBooks(c, seeds[..|seeds| - 1], fold);
      var (c2, p) := PickAll(c1, seeds[|seeds| - 1].genres, fold);
      (c2, ps + [p])
  }

  /** The whole build, from an empty cache keyed ignoring case. */
  function Plan(seeds: seq<SeedBook>): (Cache, seq<seq<nat>>) {
    PlanBooks(Cache(map[], []), seeds, Fold)
  }

  lemma CacheOkDistinct(c: Cache, fold: string -> string)
    requires CacheOk(c, fold)
    ensures KeysDistinct(c.pending, fold)
  {
  }

  lemma CacheOkHasKey(c: Cache, name: string, fold: string -> string)
    requires CacheOk(c, fold)
    ensures fold(name) in c.index <==> HasKey(c.pending, fold, fold(name))
  {
    if HasKey(c.pending, fold, fold(name)) {
      var i :| 0 <= i < |c.pending| && fold(c.pending[i]) == fold(name);
    }
  }

  /** One lookup keeps the cache consistent, adds the name exactly when no
      pending name has its key, and yields a genre with the same key. */
  lemma PickSpec(c: Cache, name: string, fold: string -> string)
    requires CacheOk(c, fold)
    ensures var (c2, k) := Pick(c, name, fold);
      && CacheOk(c2, fold)
      && c2.pending == (if HasKey(c.pending, fold, fold(name)) then c.pending else c.pending + [name])
      && k < |c2.pending| && fold(c2.pending[k]) == fold(name)
  {
    CacheOkHasKey(c, name, fold);
  }

  /** The pending names of `c2` extend those of `c`. */
  ghost predicate Grows(c: Cache, c2: Cache) {
    |c.pending| <= |c2.pending| && c2.pending[..|c.pending|] == c.pending
  }

  /** What the inner loop keeps after picking `names` from `c`, where `c` holds
      the first spellings of `hist`. */
  ghost predicate PickedFor(c: Cache, names: seq<string>, hist: seq<string>, fold: string -> string, c2: Cache, ks: seq<nat>) {
    && CacheOk(c2, fold) && c2.pending == DistinctOn(hist + names, fold)
    && Grows(c, c2)
    && |ks| == |names|
    && (forall k :: 0 <= k < |names| ==> ks[k] < |c2.pending| && fold(c2.pending[ks[k]]) == fold(names[k]))
  }

  /** The inner loop keeps the cache consistent, only appends to the pending
      names, leaves them the first spelling of each key among all names met so
      far, and picks for every name a genre with the same key. */
  lemma {:induction false} PickAllSpec(c: Cache, names: seq<string>, hist: seq<string>, fold: string -> string)
    requires CacheOk(c, fold) && c.pending == DistinctOn(hist, fold)
    ensures PickedFor(c, names, hist, fold, PickAll(c, names, fold).0, PickAll(c, names, fold).1)
    decreases |names|
  {
    if names == [] {
      assert hist + names == hist;
    } else {
      PickAllSpec(c, names[..|names| - 1], hist, fold);
      PickAllStep(c, names, hist, fold);
    }
  }

  lemma PickAllStep(c: Cache, names: seq<string>, hist: seq<string>, fold: string -> string)
    requires names != []
    requires var init := names[..|names| - 1];
      PickedFor(c, init, hist, fold, PickAll(c, init, fold).0, PickAll(c, init, fold).1)
    ensures PickedFor(c, names, hist, fold, PickAll(c, names, fold).0, PickAll(c, names, fold).1)
  {
    var init := names[..|names| - 1];
    var last := names[|names| - 1];
    assert init + [last] == names;
    PickSpec(PickAll(c, init, fold).0, last, fold);
    PickAllStepPending(c, init, last, hist, fold);
    PickAllStepPrefix(c, init, last, hist, fold);
    PickAllStepPicks(c, init, last, hist, fold);
  }

  /** `PickAll` one name longer is one more `Pick`. */
  lemma PickAllSnoc(c: Cache, init: seq<string>, last: string, fold: string -> string)
    ensures PickAll(c, init + [last], fold) ==
      (Pick(PickAll(c, init, fold).0, last, fold).0, PickAll(c, init, fold).1 + [Pick(PickAll(c, init, fold).0, last, fold).1])
  {
    var names := init + [last];
    assert names[..|names| - 1] == init;
  }

  lemma PickAllStepPending(c: Cache, init: seq<string>, last: string, hist: seq<string>, fold: string -> string)
    requires PickedFor(c, init, hist, fold, PickAll(c, init, fold).0, PickAll(c, init, fold).1)
    ensures PickAll(c, init + [last], fold).0.pending == DistinctOn(hist + (init + [last]), fold)
  {
    var c1 := PickAll(c, init, fold).0;
    PickAllSnoc(c, init, last, fold);
    PickSpec(c1, last, fold);
    assert hist + (init + [last]) == (hist + init) + [last];
    DistinctOnSnoc(hist + init, last, fold);
  }

  lemma PickAllStepPrefix(c: Cache, init: seq<string>, last: string, hist: seq<string>, fold: string -> string)
    requires PickedFor(c, init, hist, fold, PickAll(c, init, fold).0, PickAll(c, init, fold).1)
    ensures Grows(c, PickAll(c, init + [last], fold).0)
  {
    var c1 := PickAll(c, init, fold).0;
    PickAllSnoc(c, init, last, fold);
    PickSpec(c1, last, fold);
    var c2 := Pick(c1, last, fold).0;
    assert Grows(c1, c2) by {
      assert (c1.pending + [last])[..|c1.pending|] == c1.pending;
    }
    GrowsTrans(c, c1, c2);
  }

  lemma PickAllStepPicks(c: Cache, init: seq<string>, last: string, hist: seq<string>, fold: string -> string)
    requires PickedFor(c, init, hist, fold, PickAll(c, init, fold).0, PickAll(c, init, fold).1)
    ensures var (c2, ks) := PickAll(c, init + [last], fold);
      && |ks| == |init| + 1
      && forall k :: 0 <= k < |init| + 1 ==>
           ks[k] < |c2.pending| && fold(c2.pending[ks[k]]) == fold((init + [last])[k])
  {
    var names := init + [last];
    assert names[..|names| - 1] == init;
    var (c1, ks1) := PickAll(c, init, fold);
    PickSpec(c1, last, fold);
    var (c2, k) := Pick(c1, last, fold);
    assert PickAll(c, names, fold) == (c2, ks1 + [k]);
    forall i | 0 <= i < |init| ensures fold(c2.pending[ks1[i]]) == fold(init[i]) {
      assert c2.pending[ks1[i]] == c1.pending[ks1[i]];
    }
  }

  /** What the build computes: the pending names are the first spelling of each
      key among all seed genre names, and every genre a seed book names is picked
      as the pending genre with the same key. */
  ghost predicate PlannedFor(seeds: seq<SeedBook>, hist: seq<string>, fold: string -> string, c: Cache, picks: seq<seq<nat>>) {
    && CacheOk(c, fold) && c.pending == DistinctOn(hist + SeedNames(seeds), fold)
    && PicksFor(seeds, fold, c.pending, picks)
  }

  /** Every genre a seed book names is picked as a pending genre with the same
      key. */
  ghost predicate PicksFor(seeds: seq<SeedBook>, fold: string -> string, pending: seq<string>, picks: seq<seq<nat>>) {
    && |picks| == |seeds|
    && (forall j :: 0 <= j < |seeds| ==> |picks[j]| == |seeds[j].genres|)
    && (forall j, k :: 0 <= j < |seeds| && 0 <= k < |picks[j]| ==>
          picks[j][k] < |pending| && fold(pending[picks[j][k]]) == fold(seeds[j].genres[k]))
  }

  lemma {:induction false} PlanBooksSpec(c: Cache, seeds: seq<SeedBook>, hist: seq<string>, fold: string -> string)
    requires CacheOk(c, fold) && c.pending == DistinctOn(hist, fold)
    ensures PlannedFor(seeds, hist, fold, PlanBooks(c, seeds, fold).0, PlanBooks(c, seeds, fold).1)
    ensures Grows(c, PlanBooks(c, seeds, fold).0)
    decreases |seeds|
  {
    if seeds == [] {
      assert hist + SeedNames(seeds) == hist;
    } else {
      PlanBooksSpec(c, seeds[..|seeds| - 1], hist, fold);
      PlanBooksStep(c, seeds, hist, fold);
    }
  }

  lemma PlanBooksStep(c: Cache, seeds: seq<SeedBook>, hist: seq<string>, fold: string -> string)
    requires seeds != []
    requires var init := seeds[..|seeds| - 1];
      && PlannedFor(init, hist, fold, PlanBooks(c, init, fold).0, PlanBooks(c, init, fold).1)
      && Grows(c, PlanBooks(c, init, fold).0)
    ensures PlannedFor(seeds, hist, fold, PlanBooks(c, seeds, fold).0, PlanBooks(c, seeds, fold).1)
    ensures Grows(c, PlanBooks(c, seeds, fold).0)
  {
    var init := seeds[..|seeds| - 1];
    var last := seeds[|seeds| - 1];
    var (c1, ps) := PlanBooks(c, init, fold);
    assert SeedNames(seeds) == SeedNames(init) + last.genres;
    assert hist + SeedNames(seeds) == (hist + SeedNames(init)) + last.genres;
    PickAllSpec(c1, last.genres, hist + SeedNames(init), fold);
    PlanStep(init, last, hist, fold, c1, ps);
    assert init + [last] == seeds;
    GrowsTrans(c, c1, PickAll(c1, last.genres, fold).0);
  }

  lemma GrowsTrans(a: Cache, b: Cache, c: Cache)
    requires Grows(a, b) && Grows(b, c)
    ensures Grows(a, c)
  {
    assert c.pending[..|a.pending|] == c.pending[..|b.pending|][..|a.pending|];
  }

  lemma PlanStep(init: seq<SeedBook>, last: SeedBook, hist: seq<string>, fold: string -> string, c1: Cache, ps: seq<seq<nat>>)
    requires PlannedFor(init, hist, fold, c1, ps)
    requires PickedFor(c1, last.genres, hist + SeedNames(init), fold, PickAll(c1, last.genres, fold).0, PickAll(c1, last.genres, fold).1)
    requires hist + SeedNames(init + [last]) == (hist + SeedNames(init)) + last.genres
    ensures PlannedFor(init + [last], hist, fold, PickAll(c1, last.genres, fold).0, ps + [PickAll(c1, last.genres, fold).1])
  {
    var (c2, p) := PickAll(c1, last.genres, fold);
    PicksForSnoc(init, last, fold, c1.pending, c2.pending, ps, p);
  }

  /** The picks of one more book, made with pending names that extend the
      earlier ones, keep the picks of the earlier books valid. */
  lemma PicksForSnoc(init: seq<SeedBook>, last: SeedBook, fold: string -> string,
                     pending1: seq<string>, pending2: seq<string>, ps: seq<seq<nat>>, p: seq<nat>)
    requires PicksFor(init, fold, pending1, ps)
    requires |pending1| <= |pending2| && pending2[..|pending1|] == pending1
    requires |p| == |last.genres|
    requires forall k :: 0 <= k < |last.genres| ==> p[k] < |pending2| && fold(pending2[p[k]]) == fold(last.genres[k])
    ensures PicksFor(init + [last], fold, pending2, ps + [p])
  {
    var seeds := init + [last];
    var picks := ps + [p];
    forall j | 0 <= j < |seeds| ensures |picks[j]| == |seeds[j].genres| {
      if j < |init| {
        assert picks[j] == ps[j] && seeds[j] == init[j];
      } else {
        assert picks[j] == p && seeds[j] == last;
      }
    }
    forall j, k | 0 <= j < |seeds| && 0 <= k < |picks[j]|
      ensures picks[j][k] < |pending2| && fold(pending2[picks[j][k]]) == fold(seeds[j].genres[k])
    {
      if j < |init| {
        assert picks[j] == ps[j] && seeds[j] == init[j];
        assert pending2[..|pending1|][ps[j][k]] == pending1[ps[j][k]];
      } else {
        assert picks[j] == p && seeds[j] == last;
      }
    }
  }

  /** The build over the seed books from an empty cache. */
  lemma PlanSpec(seeds: seq<SeedBook>)
    ensures PicksFor(seeds, Fold, Plan(seeds).0.pending, Plan(seeds).1)
    ensures Plan(seeds).0.pending == DistinctOn(SeedNames(seeds), Fold)
    ensures KeysDistinct(Plan(seeds).0.pending, Fold)
  {
    PlanBooksSpec(Cache(map[], []), seeds, [], Fold);
    assert [] + SeedNames(seeds) == SeedNames(seeds);
    CacheOkDistinct(Plan(seeds).0, Fold);
  }

  /** The seven genres the seed data names, each once, in order of first mention. */
  const SeedGenres: seq<string> := ["Антиутопия", "Дистопия", "Роман", "Фэнтези", "Приключения", "Мистика", "Драма"]

  /** `SeedNames` of a prefix grows by the genres of the next seed book. */
  lemma SeedNamesPrefix(seeds: seq<SeedBook>, k: nat)
    requires k < |seeds|
    ensures SeedNames(seeds[..k + 1]) == SeedNames(seeds[..k]) + seeds[k].genres
  {
    assert seeds[..k + 1][..k] == seeds[..k];
  }

  /** The seed books name eight genres, "Роман" twice. */
  lemma SeedNamesLiteral()
    ensures SeedNames(SeedBooks) == SeedGenres[..6] + [SeedGenres[2], SeedGenres[6]]
  {
    assert SeedBooks[..0] == [];
    SeedNamesPrefix(SeedBooks, 0);
    SeedNamesPrefix(SeedBooks, 1);
    SeedNamesPrefix(SeedBooks, 2);
    SeedNamesPrefix(SeedBooks, 3);
    SeedNamesPrefix(SeedBooks, 4);
    assert SeedBooks[..5] == SeedBooks;
  }

  /** The seven genres differ pairwise ignoring case: their first two letters do. */
  lemma SeedGenresKeysDistinct()
    ensures KeysDistinct(SeedGenres, Fold)
  {
    var ys := SeedGenres;
    forall i, j | 0 <= i < j < |ys| ensures Fold(ys[i]) != Fold(ys[j]) {
      if FoldChar(ys[i][0]) != FoldChar(ys[j][0]) {
        FoldDiffersAt(ys[i], ys[j], 0);
      } else {
        FoldDiffersAt(ys[i], ys[j], 1);
      }
    }
  }

  /** Seven names with distinct keys, the third and the seventh repeated: any
      key-distinct selection from them that covers every key has seven names. */
  lemma SevenKeys<T, K>(names: seq<T>, ys: seq<T>, r: seq<T>, key: T -> K)
    requires |ys| == 7 && names == ys[..6] + [ys[2], ys[6]]
    requires KeysDistinct(ys, key) && KeysDistinct(r, key)
    requires forall i :: 0 <= i < |r| ==> r[i] in names
    requires forall i :: 0 <= i < |names| ==> HasKey(r, key, key(names[i]))
    ensures |names| == 8 && |r| == 7
  {
    forall i | 0 <= i < |r| ensures HasKey(ys, key, key(r[i])) {
      var k :| 0 <= k < |names| && names[k] == r[i];
      var j := if k == 6 then 2 else if k == 7 then 6 else k;
      assert ys[j] == names[k];
    }
    forall j | 0 <= j < |ys| ensures HasKey(r, key, key(ys[j])) {
      var k := if j == 6 then 7 else j;
      assert ys[j] == names[k];
    }
    SameKeysSameLength(r, ys, key);
  }

  /** The build creates one genre per distinct name: the eight genre names of the
      seed data give seven new genres, the two books naming "Роман" sharing one. */
  lemma PlanCreatesSeven()
    ensures |SeedNames(SeedBooks)| == 8
    ensures |Plan(SeedBooks).0.pending| == 7
  {
    SeedNamesLiteral();
    PlanSpec(SeedBooks);
    DistinctOnSpec(SeedNames(SeedBooks), Fold);
    SeedGenresKeysDistinct();
    SevenKeys(SeedNames(SeedBooks), SeedGenres, Plan(SeedBooks).0.pending, Fold);
  }

  // ---------------------------------------------------------------------------
  // The save.
  // ---------------------------------------------------------------------------

  /** The new genres inserted in order; the first name already stored violates
      the unique index and fails the save. */
  function InsertGenres(db: Store, names: seq<string>): Result<Store>
    decreases |names|
  {
    if names == [] then Ok(db)
    else
      match InsertGenres(db, names[..|names| - 1])
      case Err(e) => Err(e)
      case Ok(d) =>
        match InsertGenre(d, names[|names| - 1])
        case Err(e) => Err(e)
        case Ok(r) => Ok(r.0)
  }

  /** `d` is `db` with one genre row per name added under consecutive new IDs,
      in order, and nothing else changed. */
  ghost predicate AddsGenres(db: Store, d: Store, names: seq<string>) {
    && d.books == db.books && d.links == db.links && d.nextBookId == db.nextBookId
    && d.nextGenreId == db.nextGenreId + |names|
    && (forall id :: id in d.genres <==> id in db.genres || db.nextGenreId <= id < d.nextGenreId)
    && (forall id :: id in db.genres ==> d.genres[id] == db.genres[id])
    && (forall i :: 0 <= i < |names| ==> RowAt(d.genres, db.nextGenreId + i, names[i]))
  }

  /** `m` holds `v` under `id`. */
  ghost predicate RowAt<V>(m: map<int, V>, id: int, v: V) {
    id in m && m[id] == v
  }

  /** A name is stored after the inserts exactly when it was stored before or is
      one of the inserted names. */
  lemma AddsGenresNamed(db: Store, d: Store, names: seq<string>, n: string)
    requires Valid(db) && AddsGenres(db, d, names)
    ensures HasGenreNamed(d, n) <==> HasGenreNamed(db, n) || n in names
  {
    if HasGenreNamed(d, n) {
      var id :| id in d.genres && d.genres[id] == n;
      if id !in db.genres {
        assert RowAt(d.genres, db.nextGenreId + (id - db.nextGenreId), names[id - db.nextGenreId]);
      }
    }
    if HasGenreNamed(db, n) {
      var id :| id in db.genres && db.genres[id] == n;
      assert d.genres[id] == n;
    }
    if n in names {
      var i :| 0 <= i < |names| && names[i] == n;
      assert RowAt(d.genres, db.nextGenreId + i, names[i]);
    }
  }

  lemma AddsGenresSnoc(db: Store, d: Store, names: seq<string>, n: string)
    requires Valid(db) && AddsGenres(db, d, names)
    ensures AddsGenres(db, AddGenre(d, n), names + [n])
  {
    var d2 := AddGenre(d, n);
    var ns := names + [n];
    forall i | 0 <= i < |ns| ensures RowAt(d2.genres, db.nextGenreId + i, ns[i]) {
      if i < |names| {
        assert ns[i] == names[i];
        assert RowAt(d.genres, db.nextGenreId + i, names[i]);
      }
    }
  }

  ghost predicate NoneStored(db: Store, names: seq<string>) {
    forall i :: 0 <= i < |names| ==> !HasGenreNamed(db, names[i])
  }

  /** The first name that is stored, when it is `names[i]`. */
  ghost predicate FirstStored(db: Store, names: seq<string>, i: int) {
    0 <= i < |names| && HasGenreNamed(db, names[i]) && forall j :: 0 <= j < i ==> !HasGenreNamed(db, names[j])
  }

  /** Inserting pairwise different names succeeds exactly when none is stored;
      it then adds them under consecutive new IDs and keeps the store valid. A
      failure names the first stored name. */
  lemma {:induction false} InsertGenresSpec(db: Store, names: seq<string>)
    requires Valid(db)
    requires forall i, j :: 0 <= i < j < |names| ==> names[i] != names[j]
    ensures InsertGenres(db, names).Ok? <==> NoneStored(db, names)
    ensures InsertGenres(db, names).Ok? ==>
      Valid(InsertGenres(db, names).value) && AddsGenres(db, InsertGenres(db, names).value, names)
    ensures InsertGenres(db, names).Err? ==>
      exists i :: FirstStored(db, names, i) && InsertGenres(db, names).error == UniqueNameViolation(names[i])
    decreases |names|
  {
    if names != [] {
      var init := names[..|names| - 1];
      var last := names[|names| - 1];
      InsertGenresSpec(db, init);
      match InsertGenres(db, init)
      case Err(e) =>
        var i :| FirstStored(db, init, i) && e == UniqueNameViolation(init[i]);
        assert names[i] == init[i];
        assert FirstStored(db, names, i);
      case Ok(d) =>
        AddsGenresNamed(db, d, init, last);
        assert last !in init by {
          forall i | 0 <= i < |init| ensures init[i] != last {
            assert init[i] == names[i];
          }
        }
        InsertGenresStep(db, d, names);
    }
  }

  lemma InsertGenresStep(db: Store, d: Store, names: seq<string>)
    requires Valid(db) && names != []
    requires InsertGenres(db, names[..|names| - 1]) == Ok(d)
    requires NoneStored(db, names[..|names| - 1])
    requires Valid(d) && AddsGenres(db, d, names[..|names| - 1])
    requires HasGenreNamed(d, names[|names| - 1]) <==> HasGenreNamed(db, names[|names| - 1])
    ensures InsertGenres(db, names).Ok? <==> NoneStored(db, names)
    ensures InsertGenres(db, names).Ok? ==>
      Valid(InsertGenres(db, names).value) && AddsGenres(db, InsertGenres(db, names).value, names)
    ensures InsertGenres(db, names).Err? ==>
      exists i :: FirstStored(db, names, i) && InsertGenres(db, names).error == UniqueNameViolation(names[i])
  {
    var init := names[..|names| - 1];
    var last := names[|names| - 1];
    assert names == init + [last];
    if HasGenreNamed(db, last) {
      assert FirstStored(db, names, |init|);
    } else {
      InsertGenreValid(d, last);
      AddsGenresSnoc(db, d, init, last);
    }
  }

  /** The seed books inserted in order. */
  function InsertBooks(db: Store, seeds: seq<SeedBook>): Store
    decreases |seeds|
  {
    if seeds == [] then db else InsertBook(InsertBooks(db, seeds[..|seeds| - 1]), SeedRow(seeds[|seeds| - 1])).0
  }

  /** `d` is `db` with one book row per seed book added under consecutive new
      IDs, in order, and nothing else changed. */
  ghost predicate AddsBooks(db: Store, d: Store, seeds: seq<SeedBook>) {
    && d.genres == db.genres && d.links == db.links && d.nextGenreId == db.nextGenreId
    && d.nextBookId == db.nextBookId + |seeds|
    && (forall id :: id in d.books <==> id in db.books || db.nextBookId <= id < d.nextBookId)
    && (forall id :: id in db.books ==> d.books[id] == db.books[id])
    && (forall j :: 0 <= j < |seeds| ==> StoredAt(d, db.nextBookId + j, seeds[j]))
  }

  lemma {:induction false} InsertBooksSpec(db: Store, seeds: seq<SeedBook>)
    requires Valid(db)
    ensures Valid(InsertBooks(db, seeds)) && AddsBooks(db, InsertBooks(db, seeds), seeds)
    decreases |seeds|
  {
    if seeds != [] {
      var init := seeds[..|seeds| - 1];
      var d := InsertBooks(db, init);
      InsertBooksSpec(db, init);
      InsertBookValid(d, SeedRow(seeds[|seeds| - 1]));
      var d2 := InsertBooks(db, seeds);
      forall j | 0 <= j < |seeds| ensures StoredAt(d2, db.nextBookId + j, seeds[j]) {
        if j < |init| {
          assert seeds[j] == init[j];
          assert StoredAt(d, db.nextBookId + j, init[j]);
        }
      }
    }
  }

  /** The links of the planned books: book `j` gets the `j`-th new book ID and
      is linked to each genre it picked, under that genre's new ID. */
  function SeedLinks(bookId0: int, genreId0: int, picks: seq<seq<nat>>): set<Link> {
    set j, k | 0 <= j < |picks| && 0 <= k < |picks[j]| :: Link(bookId0 + j, genreId0 + picks[j][k])
  }

  /** `SaveChanges` of the built books: the new genres, then the books, then the
      links, all or nothing. */
  function SaveChanges(db: Store, pending: seq<string>, picks: seq<seq<nat>>, seeds: seq<SeedBook>): Result<Store> {
    match InsertGenres(db, pending)
    case Err(e) => Err(e)
    case Ok(d1) =>
      var d2 := InsertBooks(d1, seeds);
      Ok(d2.(links := d2.links + SeedLinks(db.nextBookId, db.nextGenreId, picks)))
  }

  /** `EnsureCreated` with the given seed data: nothing happens when a book is
      stored; otherwise the books are built and saved. `Err` is the exception the
      failed save throws, with the store left as it was. */
  function SeededWith(db: Store, seeds: seq<SeedBook>): Result<Store> {
    if |db.books| > 0 then Ok(db)
    else
      var (c, picks) := Plan(seeds);
      SaveChanges(db, c.pending, picks, seeds)
  }

  /** `EnsureCreated` with the built-in seed data. */
  function Seeded(db: Store): Result<Store> {
    SeededWith(db, SeedBooks)
  }

  /** The store after a successful seeding of `db` (which had no books): the seed
      books are the only books, under consecutive new IDs with their rows; one new
      genre row per pending name; every stored genre row kept; and book `j` is
      linked to exactly the new genre rows whose names share a key with one of its
      seed genres. */
  ghost predicate SeededShape(db: Store, seeds: seq<SeedBook>, pending: seq<string>, fold: string -> string, d: Store) {
    && (forall id :: id in d.books <==> db.nextBookId <= id < db.nextBookId + |seeds|)
    && (forall j :: 0 <= j < |seeds| ==> StoredAt(d, db.nextBookId + j, seeds[j]))
    && AddsGenres(db, d.(books := db.books, links := db.links, nextBookId := db.nextBookId), pending)
    && (forall l :: l in d.links ==> db.nextBookId <= l.bookId < db.nextBookId + |seeds|)
    && (forall j, g :: 0 <= j < |seeds| ==> LinkedToNew(db, seeds, fold, d, j, g))
  }

  /** Seed book `j` is linked to genre `g` exactly when `g` is a new genre row
      whose name shares a key with one of the book's seed genres. */
  ghost predicate LinkedToNew(db: Store, seeds: seq<SeedBook>, fold: string -> string, d: Store, j: int, g: int) {
    && 0 <= j < |seeds|
    && (Link(db.nextBookId + j, g) in d.links <==>
          g in d.genres && g !in db.genres && HasKey(seeds[j].genres, fold, fold(d.genres[g])))
  }

  /** The links of a planned book are exactly the new genres it names, up to the
      key. */
  lemma SeedLinksSpec(seeds: seq<SeedBook>, fold: string -> string, c: Cache, picks: seq<seq<nat>>,
                      b0: int, g0: int, j: int, g: int)
    requires PicksFor(seeds, fold, c.pending, picks) && KeysDistinct(c.pending, fold)
    requires 0 <= j < |seeds|
    ensures Link(b0 + j, g) in SeedLinks(b0, g0, picks) <==>
      g0 <= g < g0 + |c.pending| && HasKey(seeds[j].genres, fold, fold(c.pending[g - g0]))
  {
    if Link(b0 + j, g) in SeedLinks(b0, g0, picks) {
      SeedLinkNamed(seeds, fold, c.pending, picks, b0, g0, j, g);
    }
    if g0 <= g < g0 + |c.pending| && HasKey(seeds[j].genres, fold, fold(c.pending[g - g0])) {
      SeedLinkPlanned(seeds, fold, c.pending, picks, b0, g0, j, g);
    }
  }

  /** A planned link goes to a new genre whose key the book names. */
  lemma SeedLinkNamed(seeds: seq<SeedBook>, fold: string -> string, pending: seq<string>, picks: seq<seq<nat>>,
                      b0: int, g0: int, j: int, g: int)
    requires PicksFor(seeds, fold, pending, picks)
    requires 0 <= j < |seeds| && Link(b0 + j, g) in SeedLinks(b0, g0, picks)
    ensures g0 <= g < g0 + |pending| && HasKey(seeds[j].genres, fold, fold(pending[g - g0]))
  {
    var j', k :| 0 <= j' < |picks| && 0 <= k < |picks[j']| && Link(b0 + j, g) == Link(b0 + j', g0 + picks[j'][k]);
    assert j' == j;
    assert fold(seeds[j].genres[k]) == fold(pending[g - g0]);
  }

  /** A new genre whose key the book names is linked to it: the genre picked for
      that name has the same key, and keys of pending names are distinct. */
  lemma SeedLinkPlanned(seeds: seq<SeedBook>, fold: string -> string, pending: seq<string>, picks: seq<seq<nat>>,
                        b0: int, g0: int, j: int, g: int)
    requires PicksFor(seeds, fold, pending, picks) && KeysDistinct(pending, fold)
    requires 0 <= j < |seeds| && g0 <= g < g0 + |pending|
    requires HasKey(seeds[j].genres, fold, fold(pending[g - g0]))
    ensures Link(b0 + j, g) in SeedLinks(b0, g0, picks)
  {
    var k :| 0 <= k < |seeds[j].genres| && fold(seeds[j].genres[k]) == fold(pending[g - g0]);
    var p := picks[j][k];
    assert fold(pending[p]) == fold(pending[g - g0]);
    assert p == g - g0;
    assert Link(b0 + j, g) == Link(b0 + j, g0 + picks[j][k]);
  }

  /** Every planned link goes from a new book to a new genre. */
  lemma SeedLinksRange(seeds: seq<SeedBook>, fold: string -> string, c: Cache, picks: seq<seq<nat>>, b0: int, g0: int, l: Link)
    requires PicksFor(seeds, fold, c.pending, picks)
    requires l in SeedLinks(b0, g0, picks)
    ensures b0 <= l.bookId < b0 + |seeds| && g0 <= l.genreId < g0 + |c.pending|
  {
    var j, k :| 0 <= j < |picks| && 0 <= k < |picks[j]| && l == Link(b0 + j, g0 + picks[j][k]);
  }

  /** Seeding a store without books succeeds exactly when no pending genre name
      is stored, and a failure names the first stored one. On success the store is
      valid and has the seeded shape. */
  lemma SeedSpec(db: Store, seeds: seq<SeedBook>)
    requires Valid(db) && |db.books| == 0
    ensures var pending := Plan(seeds).0.pending;
      && pending == DistinctOn(SeedNames(seeds), Fold)
      && (SeededWith(db, seeds).Ok? <==> NoneStored(db, pending))
      && (SeededWith(db, seeds).Err? ==>
            exists i :: FirstStored(db, pending, i) && SeededWith(db, seeds).error == UniqueNameViolation(pending[i]))
      && (SeededWith(db, seeds).Ok? ==>
            Valid(SeededWith(db, seeds).value) && SeededShape(db, seeds, pending, Fold, SeededWith(db, seeds).value))
  {
    var (c, picks) := Plan(seeds);
    PlanSpec(seeds);
    InsertGenresSpec(db, c.pending);
    if NoneStored(db, c.pending) {
      var d1 := InsertGenres(db, c.pending).value;
      InsertBooksSpec(d1, seeds);
      SavedShape(db, seeds, Fold, c, picks, d1);
    }
  }

  lemma SavedShape(db: Store, seeds: seq<SeedBook>, fold: string -> string, c: Cache, picks: seq<seq<nat>>, d1: Store)
    requires Valid(db) && |db.books| == 0
    requires PicksFor(seeds, fold, c.pending, picks) && KeysDistinct(c.pending, fold)
    requires Valid(d1) && AddsGenres(db, d1, c.pending)
    requires Valid(InsertBooks(d1, seeds)) && AddsBooks(d1, InsertBooks(d1, seeds), seeds)
    ensures var d2 := InsertBooks(d1, seeds);
      var d := d2.(links := d2.links + SeedLinks(db.nextBookId, db.nextGenreId, picks));
      Valid(d) && SeededShape(db, seeds, c.pending, fold, d)
  {
    var d2 := InsertBooks(d1, seeds);
    var links := SeedLinks(db.nextBookId, db.nextGenreId, picks);
    var d := d2.(links := d2.links + links);
    assert db.books == map[];
    assert db.links == {};
    SavedLinksValid(db, seeds, fold, c, picks, d1);
    SavedLinksExact(db, seeds, fold, c, picks, d1);
    SavedRows(db, seeds, c.pending, d1, d2, links);
  }

  /** The rows after the save: the seed books are the only books, and the
      genres are those of `db` plus the pending names. */
  lemma SavedRows(db: Store, seeds: seq<SeedBook>, pending: seq<string>, d1: Store, d2: Store, links: set<Link>)
    requires db.books == map[]
    requires AddsGenres(db, d1, pending) && AddsBooks(d1, d2, seeds)
    ensures var d := d2.(links := d2.links + links);
      && (forall id :: id in d.books <==> db.nextBookId <= id < db.nextBookId + |seeds|)
      && (forall j :: 0 <= j < |seeds| ==> StoredAt(d, db.nextBookId + j, seeds[j]))
      && AddsGenres(db, d.(books := db.books, links := db.links, nextBookId := db.nextBookId), pending)
  {
    var d := d2.(links := d2.links + links);
    var e := d.(books := db.books, links := db.links, nextBookId := db.nextBookId);
    assert e.genres == d1.genres && e.nextGenreId == d1.nextGenreId;
    assert e.books == d1.books && e.links == d1.links && e.nextBookId == d1.nextBookId;
    assert e == d1;
  }

  lemma SavedLinksValid(db: Store, seeds: seq<SeedBook>, fold: string -> string, c: Cache, picks: seq<seq<nat>>, d1: Store)
    requires Valid(db) && db.links == {}
    requires PicksFor(seeds, fold, c.pending, picks)
    requires AddsGenres(db, d1, c.pending)
    requires Valid(InsertBooks(d1, seeds)) && AddsBooks(d1, InsertBooks(d1, seeds), seeds)
    ensures var d2 := InsertBooks(d1, seeds);
      var d := d2.(links := d2.links + SeedLinks(db.nextBookId, db.nextGenreId, picks));
      && Valid(d)
      && (forall l :: l in d.links ==> db.nextBookId <= l.bookId < db.nextBookId + |seeds|)
  {
    var d2 := InsertBooks(d1, seeds);
    var links := SeedLinks(db.nextBookId, db.nextGenreId, picks);
    forall l | l in links
      ensures l.bookId in d2.books && l.genreId in d2.genres && db.nextBookId <= l.bookId < db.nextBookId + |seeds|
    {
      SeedLinksRange(seeds, fold, c, picks, db.nextBookId, db.nextGenreId, l);
    }
  }

  lemma SavedLinksExact(db: Store, seeds: seq<SeedBook>, fold: string -> string, c: Cache, picks: seq<seq<nat>>, d1: Store)
    requires Valid(db) && db.links == {}
    requires PicksFor(seeds, fold, c.pending, picks) && KeysDistinct(c.pending, fold)
    requires AddsGenres(db, d1, c.pending)
    requires AddsBooks(d1, InsertBooks(d1, seeds), seeds)
    ensures var d2 := InsertBooks(d1, seeds);
      var d := d2.(links := d2.links + SeedLinks(db.nextBookId, db.nextGenreId, picks));
      forall j, g :: 0 <= j < |seeds| ==> LinkedToNew(db, seeds, fold, d, j, g)
  {
    var d2 := InsertBooks(d1, seeds);
    var links := SeedLinks(db.nextBookId, db.nextGenreId, picks);
    var d := d2.(links := d2.links + links);
    assert d2.links == {};
    assert d.links == links && d.genres == d1.genres;
    forall j, g | 0 <= j < |seeds| ensures LinkedToNew(db, seeds, fold, d, j, g) {
      SavedLinkAt(db, seeds, fold, c, picks, d1, j, g);
    }
  }

  lemma SavedLinkAt(db: Store, seeds: seq<SeedBook>, fold: string -> string, c: Cache, picks: seq<seq<nat>>, d1: Store, j: int, g: int)
    requires Valid(db)
    requires PicksFor(seeds, fold, c.pending, picks) && KeysDistinct(c.pending, fold)
    requires AddsGenres(db, d1, c.pending)
    requires 0 <= j < |seeds|
    ensures Link(db.nextBookId + j, g) in SeedLinks(db.nextBookId, db.nextGenreId, picks) <==>
      g in d1.genres && g !in db.genres && HasKey(seeds[j].genres, fold, fold(d1.genres[g]))
  {
    SeedLinksSpec(seeds, fold, c, picks, db.nextBookId, db.nextGenreId, j, g);
    NewGenreAt(db.genres, d1.genres, db.nextGenreId, c.pending, g);
    LinkIffNew(SeedLinks(db.nextBookId, db.nextGenreId, picks), db.nextBookId + j, g, db.nextGenreId, c.pending,
               db.genres, d1.genres, seeds[j].genres, fold);
  }

  lemma LinkIffNew(links: set<Link>, b: int, g: int, g0: int, pending: seq<string>,
                   before: map<int, string>, after: map<int, string>, names: seq<string>, fold: string -> string)
    requires Link(b, g) in links <==> g0 <= g < g0 + |pending| && HasKey(names, fold, fold(pending[g - g0]))
    requires g in after && g !in before <==> g0 <= g < g0 + |pending|
    requires g0 <= g < g0 + |pending| ==> after[g] == pending[g - g0]
    ensures Link(b, g) in links <==> g in after && g !in before && HasKey(names, fold, fold(after[g]))
  {
  }

  /** A genre ID after the inserts is new exactly when it is in the new range,
      and then it holds the pending name at its offset. */
  lemma NewGenreAt(before: map<int, string>, after: map<int, string>, g0: int, pending: seq<string>, g: int)
    requires forall id :: id in before ==> id < g0
    requires forall id :: id in after <==> id in before || g0 <= id < g0 + |pending|
    requires forall i :: 0 <= i < |pending| ==> RowAt(after, g0 + i, pending[i])
    ensures g in after && g !in before <==> g0 <= g < g0 + |pending|
    ensures g0 <= g < g0 + |pending| ==> after[g] == pending[g - g0]
  {
    if g0 <= g < g0 + |pending| {
      assert RowAt(after, g0 + (g - g0), pending[g - g0]);
    }
  }

  /** A store that already has a book is left alone. */
  lemma SeededKeepsNonEmpty(db: Store)
    requires |db.books| > 0
    ensures Seeded(db) == Ok(db)
  {
  }

  /** Seeding is idempotent: once it succeeded, the store has books and a second
      run changes nothing. */
  lemma SeededIdempotent(db: Store)
    requires Valid(db) && Seeded(db).Ok?
    ensures Seeded(Seeded(db).value) == Seeded(db)
  {
    if |db.books| == 0 {
      SeedSpec(db, SeedBooks);
      assert db.nextBookId in Seeded(db).value.books;
    }
  }

  /** Some genre name occurs in the seed data, so the build creates a genre. */
  lemma SeedPendingNonEmpty()
    ensures SeedNames(SeedBooks) != [] && |Plan(SeedBooks).0.pending| > 0
    ensures forall i :: 0 <= i < |Plan(SeedBooks).0.pending| ==> Plan(SeedBooks).0.pending[i] in SeedNames(SeedBooks)
  {
    var names := SeedNames(SeedBooks);
    assert names == SeedNames(SeedBooks[..4]) + ["Драма"];
    PlanSpec(SeedBooks);
    DistinctOnSpec(names, Fold);
    assert names[|names| - 1] == "Драма";
  }

  /** Seeding a store that has neither books nor genres succeeds: the store is
      valid, has the seeded shape, and its genre names are unique ignoring case. */
  lemma SeededFresh(db: Store, seeds: seq<SeedBook>)
    requires Valid(db) && db.books == map[] && db.genres == map[]
    ensures SeededWith(db, seeds).Ok?
    ensures var d := SeededWith(db, seeds).value;
      && Valid(d) && SeededShape(db, seeds, Plan(seeds).0.pending, Fold, d)
      && FoldUnique(d.genres)
  {
    NoneStoredInEmpty(db, Plan(seeds).0.pending);
    SeededOk(db, seeds);
    PlanSpec(seeds);
    FreshShapeUnique(db, seeds, Plan(seeds).0.pending, SeededWith(db, seeds).value);
  }

  /** Seeding a store without genres, with pending names of pairwise different
      keys, leaves names unique ignoring case. */
  lemma FreshShapeUnique(db: Store, seeds: seq<SeedBook>, pending: seq<string>, d: Store)
    requires db.genres == map[] && KeysDistinct(pending, Fold)
    requires SeededShape(db, seeds, pending, Fold, d)
    ensures FoldUnique(d.genres)
  {
    assert d.(books := db.books, links := db.links, nextBookId := db.nextBookId).genres == d.genres;
    NewGenresUnique(d.genres, db.nextGenreId, pending);
  }

  /** Seeding a store without books in which no pending name is stored
      succeeds, with a valid store of the seeded shape. */
  lemma SeededOk(db: Store, seeds: seq<SeedBook>)
    requires Valid(db) && |db.books| == 0 && NoneStored(db, Plan(seeds).0.pending)
    ensures SeededWith(db, seeds).Ok?
    ensures Valid(SeededWith(db, seeds).value)
    ensures SeededShape(db, seeds, Plan(seeds).0.pending, Fold, SeededWith(db, seeds).value)
  {
    SeedSpec(db, seeds);
  }

  lemma NoneStoredInEmpty(db: Store, names: seq<string>)
    requires db.genres == map[]
    ensures NoneStored(db, names)
  {
  }

  /** Genre rows that are exactly the given names, with pairwise different keys,
      under consecutive IDs have names unique ignoring case. */
  lemma NewGenresUnique(genres: map<int, string>, g0: int, pending: seq<string>)
    requires forall id :: id in genres <==> g0 <= id < g0 + |pending|
    requires forall i :: 0 <= i < |pending| ==> RowAt(genres, g0 + i, pending[i])
    requires KeysDistinct(pending, Fold)
    ensures FoldUnique(genres)
  {
    forall a, b | a in genres && b in genres && Fold(genres[a]) == Fold(genres[b]) ensures a == b {
      NewGenreAt(map[], genres, g0, pending, a);
      NewGenreAt(map[], genres, g0, pending, b);
    }
  }

  /** Seeding the empty store succeeds, with the seeded shape and names unique
      ignoring case. */
  lemma SeededEmptyStore()
    ensures Seeded(EmptyStore()).Ok?
    ensures var d := Seeded(EmptyStore()).value;
      && Valid(d) && SeededShape(EmptyStore(), SeedBooks, Plan(SeedBooks).0.pending, Fold, d)
      && FoldUnique(d.genres)
  {
    EmptyStoreValid();
    SeededFresh(EmptyStore(), SeedBooks);
  }

  /** Two seed books naming genres with the same key are linked to one shared new
      genre row. */
  lemma SeededSharedGenre(db: Store, seeds: seq<SeedBook>, j1: int, k1: int, j2: int, k2: int)
    requires Valid(db) && db.books == map[] && db.genres == map[]
    requires 0 <= j1 < |seeds| && 0 <= k1 < |seeds[j1].genres|
    requires 0 <= j2 < |seeds| && 0 <= k2 < |seeds[j2].genres|
    requires Fold(seeds[j1].genres[k1]) == Fold(seeds[j2].genres[k2])
    ensures SeededWith(db, seeds).Ok?
    ensures ShareGenre(SeededWith(db, seeds).value, db.nextBookId + j1, db.nextBookId + j2)
  {
    SeededFresh(db, seeds);
    PlanSpec(seeds);
    ShapeShares(db, seeds, Plan(seeds).0.pending, Plan(seeds).1, Fold, SeededWith(db, seeds).value, j1, k1, j2, k2);
  }

  /** In the seeded shape, the genre row picked for a seed name is linked to
      every seed book naming a genre with the same key. */
  lemma ShapeShares(db: Store, seeds: seq<SeedBook>, pending: seq<string>, picks: seq<seq<nat>>,
                    fold: string -> string, d: Store, j1: int, k1: int, j2: int, k2: int)
    requires db.genres == map[]
    requires SeededShape(db, seeds, pending, fold, d) && PicksFor(seeds, fold, pending, picks)
    requires 0 <= j1 < |seeds| && 0 <= k1 < |seeds[j1].genres|
    requires 0 <= j2 < |seeds| && 0 <= k2 < |seeds[j2].genres|
    requires fold(seeds[j1].genres[k1]) == fold(seeds[j2].genres[k2])
    ensures ShareGenre(d, db.nextBookId + j1, db.nextBookId + j2)
  {
    var p := picks[j1][k1];
    var g := db.nextGenreId + p;
    var e := d.(books := db.books, links := db.links, nextBookId := db.nextBookId);
    assert RowAt(e.genres, db.nextGenreId + p, pending[p]);
    assert d.genres[g] == pending[p];
    assert HasKey(seeds[j1].genres, fold, fold(d.genres[g]));
    assert HasKey(seeds[j2].genres, fold, fold(d.genres[g]));
    SharedFromNew(db, seeds, fold, d, j1, j2, g);
  }

  /** A new genre row whose key both books name is linked to both. */
  lemma SharedFromNew(db: Store, seeds: seq<SeedBook>, fold: string -> string, d: Store, j1: int, j2: int, g: int)
    requires LinkedToNew(db, seeds, fold, d, j1, g) && LinkedToNew(db, seeds, fold, d, j2, g)
    requires g in d.genres && g !in db.genres
    requires HasKey(seeds[j1].genres, fold, fold(d.genres[g])) && HasKey(seeds[j2].genres, fold, fold(d.genres[g]))
    ensures ShareGenre(d, db.nextBookId + j1, db.nextBookId + j2)
  {
    assert Link(db.nextBookId + j1, g) in d.links && Link(db.nextBookId + j2, g) in d.links;
  }

  /** Two books are linked to one common genre row. */
  ghost predicate ShareGenre(d: Store, b1: int, b2: int) {
    exists g :: Link(b1, g) in d.links && Link(b2, g) in d.links
  }

  /** Seeding a store without books or genres links the second and the fourth
      seed book to one shared genre row, the one created for "Роман". */
  lemma SeededShareRoman(db: Store)
    requires Valid(db) && db.books == map[] && db.genres == map[]
    ensures Seeded(db).Ok?
    ensures ShareGenre(Seeded(db).value, db.nextBookId + 1, db.nextBookId + 3)
  {
    assert SeedBooks[1].genres[0] == SeedBooks[3].genres[1];
    SeededSharedGenre(db, SeedBooks, 1, 0, 3, 1);
  }

  // ---------------------------------------------------------------------------
  // The re-seeding failure and the corrected seeding.
  // ---------------------------------------------------------------------------

  /** Deleting each of the given books in turn. */
  function DeleteEach(db: Store, ids: seq<int>): Store
    decreases |ids|
  {
    if ids == [] then db else DeleteById(DeleteEach(db, ids[..|ids| - 1]), ids[|ids| - 1]).0
  }

  lemma {:induction false} DeleteEachSpec(db: Store, ids: seq<int>)
    requires Valid(db)
    ensures Valid(DeleteEach(db, ids)) && DeleteEach(db, ids).genres == db.genres
    ensures forall id :: id in DeleteEach(db, ids).books <==> id in db.books && id !in ids
    decreases |ids|
  {
    if ids != [] {
      var init := ids[..|ids| - 1];
      DeleteEachSpec(db, init);
      DeleteByIdSpec(DeleteEach(db, init), ids[|ids| - 1]);
      assert forall id :: id in ids <==> id in init || id == ids[|ids| - 1];
    }
  }

  /** The store after every book was deleted through the repository. */
  function AfterDeletingAll(db: Store): Store {
    DeleteEach(db, BookIds(db))
  }

  lemma AfterDeletingAllSpec(db: Store)
    requires Valid(db)
    ensures Valid(AfterDeletingAll(db)) && |AfterDeletingAll(db).books| == 0
    ensures AfterDeletingAll(db).genres == db.genres
  {
    BookIdsSpec(db);
    DeleteEachSpec(db, BookIds(db));
    var books := AfterDeletingAll(db).books;
    assert forall id :: id !in books;
    assert books.Keys == {};
  }

  /** As written, seeding a fresh store and then deleting every seeded book
      leaves a store that cannot be seeded again: the books table is empty, but
      the seeded genre rows are still there, and re-inserting the first of them
      violates the unique name index. */
  lemma ReseedFailsWith(db: Store, seeds: seq<SeedBook>)
    requires Valid(db) && db.books == map[] && db.genres == map[]
    requires SeedNames(seeds) != []
    ensures SeededWith(db, seeds).Ok?
    ensures var e := AfterDeletingAll(SeededWith(db, seeds).value);
      && Valid(e) && |e.books| == 0
      && SeededWith(e, seeds).Err? && SeededWith(e, seeds).error.UniqueNameViolation?
      && SeededWith(e, seeds).error.name in SeedNames(seeds)
  {
    SeededFresh(db, seeds);
    PlanSpec(seeds);
    DistinctOnSpec(SeedNames(seeds), Fold);
    ReseedFailsFrom(db, seeds, Plan(seeds).0.pending, SeededWith(db, seeds).value);
  }

  /** A store of the seeded shape, with every seeded book deleted, still holds
      the first pending name, so seeding it again fails on a seed name. */
  lemma ReseedFailsFrom(db: Store, seeds: seq<SeedBook>, pending: seq<string>, d: Store)
    requires Valid(d) && SeededShape(db, seeds, pending, Fold, d)
    requires pending == Plan(seeds).0.pending && pending != []
    requires forall i :: 0 <= i < |pending| ==> pending[i] in SeedNames(seeds)
    ensures var e := AfterDeletingAll(d);
      && Valid(e) && |e.books| == 0
      && SeededWith(e, seeds).Err? && SeededWith(e, seeds).error.UniqueNameViolation?
      && SeededWith(e, seeds).error.name in SeedNames(seeds)
  {
    AfterDeletingAllSpec(d);
    var e := AfterDeletingAll(d);
    var r := d.(books := db.books, links := db.links, nextBookId := db.nextBookId);
    assert RowAt(r.genres, db.nextGenreId + 0, pending[0]);
    assert e.genres[db.nextGenreId] == pending[0];
    assert HasGenreNamed(e, pending[0]);
    assert !NoneStored(e, pending);
    SeedSpec(e, seeds);
  }

  /** The concrete instance: seeding the empty store, deleting every book, and
      starting the application again fails on the unique name index. */
  lemma ReseedAfterDeletingAllFails()
    ensures Seeded(EmptyStore()).Ok?
    ensures var e := AfterDeletingAll(Seeded(EmptyStore()).value);
      && Valid(e) && |e.books| == 0
      && Seeded(e).Err? && Seeded(e).error.UniqueNameViolation?
      && Seeded(e).error.name in SeedNames(SeedBooks)
  {
    EmptyStoreValid();
    SeedPendingNonEmpty();
    ReseedFailsWith(EmptyStore(), SeedBooks);
  }

  /** The seed book as a constructed `Book`. */
  function SeedEntity(s: SeedBook): Book {
    NewBook(s.title, s.author, s.year, s.genres)
  }

  /** Each seed book added in turn through the tracked-context `Add`. */
  function AddSeeds(db: Store, seeds: seq<SeedBook>): Store
    decreases |seeds|
  {
    if seeds == [] then db else EfRepo.Added(AddSeeds(db, seeds[..|seeds| - 1]), SeedEntity(seeds[|seeds| - 1])).0
  }

  /** The corrected seeding: when no book is stored, each seed book is added the
      way the repository adds a book, so a genre already stored under a name
      matching ignoring case is reused instead of inserted again. */
  function SeededReusingWith(db: Store, seeds: seq<SeedBook>): Store {
    if |db.books| > 0 then db else AddSeeds(db, seeds)
  }

  /** The corrected seeding with the built-in seed data. */
  function SeededReusing(db: Store): Store {
    SeededReusingWith(db, SeedBooks)
  }

  /** What adding `seeds` to `db` yields in `d`: valid, names unique ignoring
      case when they were, every stored genre row and book kept, and each seed
      book stored under the next consecutive ID with its row. */
  ghost predicate AddedSeeds(db: Store, seeds: seq<SeedBook>, d: Store) {
    && Valid(d) && (FoldUnique(db.genres) ==> FoldUnique(d.genres))
    && d.nextBookId == db.nextBookId + |seeds|
    && (forall id :: id in db.genres ==> id in d.genres && d.genres[id] == db.genres[id])
    && (forall id :: id in db.books ==> id in d.books && d.books[id] == db.books[id])
    && (forall j :: 0 <= j < |seeds| ==> StoredAt(d, db.nextBookId + j, seeds[j]))
  }

  /** The seed book's row is stored under `id`. */
  ghost predicate StoredAt(d: Store, id: int, s: SeedBook) {
    id in d.books && d.books[id] == SeedRow(s)
  }

  /** Adding the seed books keeps the store valid and names unique ignoring case,
      keeps every stored genre row and book, and stores each seed book under the
      next consecutive ID with its row. */
  lemma {:induction false} AddSeedsSpec(db: Store, seeds: seq<SeedBook>)
    requires Valid(db)
    ensures AddedSeeds(db, seeds, AddSeeds(db, seeds))
    decreases |seeds|
  {
    if seeds != [] {
      AddSeedsSpec(db, seeds[..|seeds| - 1]);
      AddSeedsStep(db, seeds);
    } else {
      assert AddSeeds(db, seeds) == db;
    }
  }

  lemma AddSeedsStep(db: Store, seeds: seq<SeedBook>)
    requires Valid(db) && seeds != []
    requires AddedSeeds(db, seeds[..|seeds| - 1], AddSeeds(db, seeds[..|seeds| - 1]))
    ensures AddedSeeds(db, seeds, AddSeeds(db, seeds))
  {
    var init := seeds[..|seeds| - 1];
    var last := seeds[|seeds| - 1];
    SplitLast(seeds);
    AddSeedsLast(db, seeds);
    AddSeedsStepAt(db, init, last, seeds, AddSeeds(db, init), AddSeeds(db, seeds));
  }

  /** What the last `Add` of `AddSeeds` does. */
  ghost predicate AddsOneSeed(d0: Store, s: SeedBook, d: Store) {
    && Valid(d) && (FoldUnique(d0.genres) ==> FoldUnique(d.genres))
    && d.nextBookId == d0.nextBookId + 1 && d0.nextBookId !in d0.books
    && d.books == d0.books[d0.nextBookId := SeedRow(s)]
    && (forall id :: id in d0.genres ==> id in d.genres && d.genres[id] == d0.genres[id])
  }

  lemma AddSeedsLast(db: Store, seeds: seq<SeedBook>)
    requires seeds != [] && Valid(AddSeeds(db, seeds[..|seeds| - 1]))
    ensures AddsOneSeed(AddSeeds(db, seeds[..|seeds| - 1]), seeds[|seeds| - 1], AddSeeds(db, seeds))
  {
    AddedSeed(AddSeeds(db, seeds[..|seeds| - 1]), seeds[|seeds| - 1]);
  }

  /** One seed book added through the tracked-context repository. */
  lemma AddedSeed(d0: Store, s: SeedBook)
    requires Valid(d0)
    ensures AddsOneSeed(d0, s, EfRepo.Added(d0, SeedEntity(s)).0)
  {
    EfRepo.AddedSpec(d0, SeedEntity(s));
  }

  lemma AddSeedsStepAt(db: Store, init: seq<SeedBook>, last: SeedBook, seeds: seq<SeedBook>, d0: Store, d: Store)
    requires seeds == init + [last]
    requires Valid(db) && AddedSeeds(db, init, d0) && AddsOneSeed(d0, last, d)
    ensures AddedSeeds(db, seeds, d)
  {
    forall j | 0 <= j < |seeds| ensures StoredAt(d, db.nextBookId + j, seeds[j]) {
      if j < |init| {
        assert seeds[j] == init[j];
        assert StoredAt(d0, db.nextBookId + j, init[j]);
      }
    }
  }

  /** The corrected seeding never fails; it keeps the store valid and names
      unique ignoring case, keeps every genre row, and when no book was stored it
      stores every seed book. */
  lemma SeededReusingWithSpec(db: Store, seeds: seq<SeedBook>)
    requires Valid(db)
    ensures var d := SeededReusingWith(db, seeds);
      && Valid(d)
      && (FoldUnique(db.genres) ==> FoldUnique(d.genres))
      && (forall id :: id in db.genres ==> id in d.genres && d.genres[id] == db.genres[id])
      && (|db.books| > 0 ==> d == db)
      && (|db.books| == 0 ==> forall j :: 0 <= j < |seeds| ==> StoredAt(d, db.nextBookId + j, seeds[j]))
  {
    if |db.books| == 0 {
      AddSeedsSpec(db, seeds);
    }
  }

  lemma SeededReusingSpec(db: Store)
    requires Valid(db)
    ensures var d := SeededReusing(db);
      && Valid(d)
      && (FoldUnique(db.genres) ==> FoldUnique(d.genres))
      && (forall id :: id in db.genres ==> id in d.genres && d.genres[id] == db.genres[id])
      && (|db.books| > 0 ==> d == db)
      && (|db.books| == 0 ==> forall j :: 0 <= j < |SeedBooks| ==> StoredAt(d, db.nextBookId + j, SeedBooks[j]))
  {
    SeededReusingWithSpec(db, SeedBooks);
  }

  /** Where the seeding as written fails, the corrected one succeeds: after
      seeding a store with neither books nor genres (the empty store, say) and
      deleting every book, the corrected seeding stores every seed book again and
      keeps the store valid and names unique ignoring case. */
  lemma ReseedReusingWith(db: Store, seeds: seq<SeedBook>)
    requires Valid(db) && db.books == map[] && db.genres == map[]
    ensures SeededWith(db, seeds).Ok?
    ensures var e := AfterDeletingAll(SeededWith(db, seeds).value);
      && Valid(SeededReusingWith(e, seeds)) && FoldUnique(SeededReusingWith(e, seeds).genres)
      && forall j :: 0 <= j < |seeds| ==> StoredAt(SeededReusingWith(e, seeds), e.nextBookId + j, seeds[j])
  {
    SeededFresh(db, seeds);
    ReseedReusingFrom(SeededWith(db, seeds).value, seeds);
  }

  /** Deleting every book of a valid store whose names are unique ignoring case
      and then seeding it with the corrected seeding stores every seed book. */
  lemma ReseedReusingFrom(d: Store, seeds: seq<SeedBook>)
    requires Valid(d) && FoldUnique(d.genres)
    ensures var e := AfterDeletingAll(d);
      && Valid(SeededReusingWith(e, seeds)) && FoldUnique(SeededReusingWith(e, seeds).genres)
      && forall j :: 0 <= j < |seeds| ==> StoredAt(SeededReusingWith(e, seeds), e.nextBookId + j, seeds[j])
  {
    AfterDeletingAllSpec(d);
    var e := AfterDeletingAll(d);
    assert FoldUnique(e.genres) && |e.books| == 0;
    SeededReusingWithSpec(e, seeds);
  }

  // ---------------------------------------------------------------------------
  // The initialiser.
  // ---------------------------------------------------------------------------

  /** The build loop: for each seed book, a book with no genres, then each of its
      genre names looked up in the cache, a new genre created and cached under the
      fold of its name when missing, and the genre added to the book. */
  method BuildSeed(seeds: seq<SeedBook>) returns (pending: seq<string>, picks: seq<seq<nat>>)
    ensures (Cache(Plan(seeds).0.index, pending), picks) == Plan(seeds)
  {
    var genreCache: map<string, nat> := map[];
    pending := [];
    picks := [];
    for j := 0 to |seeds|
      invariant PlanBooks(Cache(map[], []), seeds[..j], Fold) == (Cache(genreCache, pending), picks)
    {
      ghost var c0 := Cache(genreCache, pending);
      var names := seeds[j].genres;
      var picked: seq<nat> := [];
      for k := 0 to |names|
        invariant PickAll(c0, names[..k], Fold) == (Cache(genreCache, pending), picked)
      {
        assert names[..k + 1][..k] == names[..k];
        var key := Fold(names[k]);
        if key in genreCache {
          picked := picked + [genreCache[key]];
        } else {
          picked := picked + [|pending|];
          genreCache := genreCache[key := |pending|];
          pending := pending + [names[k]];
        }
      }
      assert names[..|names|] == names;
      assert seeds[..j + 1][..j] == seeds[..j];
      picks := picks + [picked];
    }
    assert seeds[..|seeds|] == seeds;
  }

  /** `EnsureCreated`: a store with a book is left alone; otherwise the seed books
      are built and saved in one `SaveChanges`. `Err` is the exception that
      escapes when the save is refused. */
  method EnsureCreated(db: Store) returns (r: Result<Store>)
    ensures r == Seeded(db)
  {
    if |db.books| > 0 {
      return Ok(db);
    }
    var pending, picks := BuildSeed(SeedBooks);
    r := SaveChanges(db, pending, picks, SeedBooks);
  }
}
