/** The SQL-based repository. Every write runs in one transaction: the statements
    are functions on the store, and a failing statement rolls the whole call
    back. Two points differ from the tracked-context repository. Genre names are
    matched against the store exactly, by the unique index and `WHERE Name IN`,
    while the dictionary built from them is keyed ignoring case. The link loop
    walks the extracted names without removing duplicates. */
module DapperRepo {
  import opened Text
  import opened Seqs
  import opened GenreNames
  import opened Entities
  import opened Schema
  import opened Queries

  /** `ExtractGenreNames`: the book's genre names, blank ones dropped and the
      others trimmed, duplicates kept. */
  function ExtractGenreNames(b: Book): seq<string> {
    CleanNames(NamesOf(b.genres))
  }

  /** The extracted names are clean, and every non-blank genre name of the book
      is among them trimmed. */
  lemma ExtractGenreNamesSpec(b: Book)
    ensures AllClean(ExtractGenreNames(b))
    ensures forall i :: 0 <= i < |b.genres| && !IsBlank(b.genres[i].name) ==>
      Trim(b.genres[i].name) in ExtractGenreNames(b)
  {
    CleanNamesAllClean(NamesOf(b.genres));
    CleanNamesMembers(NamesOf(b.genres));
    forall i | 0 <= i < |b.genres| && !IsBlank(b.genres[i].name)
      ensures Trim(b.genres[i].name) in ExtractGenreNames(b)
    {
      assert NamesOf(b.genres)[i] == b.genres[i].name;
    }
  }

  /** For a book built by the constructor the extracted names are the cleaned
      constructor arguments: the constructor already trimmed them. */
  lemma ExtractFromNewBook(title: string, author: string, year: int, names: seq<string>)
    ensures ExtractGenreNames(NewBook(title, author, year, names)) == CleanNames(names)
  {
    CleanNamesIdempotent(names);
  }

  /** The insert-or-ignore statements of `EnsureGenreIds`, one per name in order. */
  function InsertAll(db: Store, names: seq<string>): Store
    decreases |names|
  {
    if names == [] then db
    else InsertGenreOrIgnore(InsertAll(db, names[..|names| - 1]), names[|names| - 1])
  }

  /** The inserts keep the store valid, touch no book or link, keep every row,
      and leave a row named exactly like each name; a row is added only for a
      name no row had exactly. */
  lemma {:induction false} InsertAllSpec(db: Store, names: seq<string>)
    requires Valid(db)
    ensures var d := InsertAll(db, names);
      && Valid(d) && d.books == db.books && d.links == db.links && d.nextBookId == db.nextBookId
      && (forall id :: id in db.genres ==> id in d.genres && d.genres[id] == db.genres[id])
      && (forall i :: 0 <= i < |names| ==> HasGenreNamed(d, names[i]))
      && (forall id :: id in d.genres && id !in db.genres ==>
            d.genres[id] in names && !HasGenreNamed(db, d.genres[id]))
    decreases |names|
  {
    if names != [] {
      var init := names[..|names| - 1];
      var n := names[|names| - 1];
      InsertAllSpec(db, init);
      var d0 := InsertAll(db, init);
      InsertGenreOrIgnoreSpec(d0, n);
      var d := InsertAll(db, names);
      forall i | 0 <= i < |names| ensures HasGenreNamed(d, names[i]) {
        if i < |init| {
          assert names[i] == init[i];
          var g :| g in d0.genres && d0.genres[g] == init[i];
          assert d.genres[g] == init[i];
        }
      }
      forall id | id in d.genres && id !in db.genres
        ensures d.genres[id] in names && !HasGenreNamed(db, d.genres[id])
      {
        if id !in d0.genres {
          assert d.genres[id] == n;
        } else {
          assert d0.genres[id] in init;
        }
      }
    }
  }

  /** The key of a genre under the case-insensitive comparer. */
  function NameKey(g: Genre): string {
    Fold(g.name)
  }

  function IdOf(g: Genre): int {
    g.id
  }

  /** `ToDictionary(x => x.Name, x => x.Id, CurrentCultureIgnoreCase)`: keyed by
      the folded name; a key met twice fails the call. */
  function FoldDictionary(rows: seq<Genre>): Result<map<string, int>>
    decreases |rows|
  {
    if rows == [] then Ok(map[])
    else
      match FoldDictionary(rows[..|rows| - 1])
      case Err(e) => Err(e)
      case Ok(m) =>
        var g := rows[|rows| - 1];
        if NameKey(g) in m then Err(DuplicateKey(NameKey(g))) else Ok(m[NameKey(g) := g.id])
  }

  /** The dictionary is built exactly when no two rows share a key; then its keys
      are the rows' keys and each maps to its row's ID. */
  lemma FoldDictionarySpec(rows: seq<Genre>)
    ensures FoldDictionary(rows).Ok? <==> KeysDistinct(rows, NameKey)
    ensures FoldDictionary(rows).Ok? ==>
      && (forall k :: k in FoldDictionary(rows).value <==> HasKey(rows, NameKey, k))
      && (forall i :: 0 <= i < |rows| ==>
            NameKey(rows[i]) in FoldDictionary(rows).value && FoldDictionary(rows).value[NameKey(rows[i])] == rows[i].id)
  {
    if KeysDistinct(rows, NameKey) {
      FoldDictionaryOk(rows);
    } else {
      FoldDictionaryErr(rows);
    }
  }

  lemma {:induction false} FoldDictionaryOk(rows: seq<Genre>)
    requires KeysDistinct(rows, NameKey)
    ensures FoldDictionary(rows).Ok?
    ensures forall k :: k in FoldDictionary(rows).value <==> HasKey(rows, NameKey, k)
    ensures forall i :: 0 <= i < |rows| ==>
      NameKey(rows[i]) in FoldDictionary(rows).value && FoldDictionary(rows).value[NameKey(rows[i])] == rows[i].id
    decreases |rows|
  {
    if rows != [] {
      var init := rows[..|rows| - 1];
      var g := rows[|rows| - 1];
      assert rows == init + [g];
      KeysDistinctSnoc(init, g, NameKey);
      FoldDictionaryOk(init);
      var m := FoldDictionary(init).value;
      assert NameKey(g) !in m;
      var m2 := m[NameKey(g) := g.id];
      assert FoldDictionary(rows) == Ok(m2);
      forall k ensures k in m2 <==> HasKey(rows, NameKey, k) {
        HasKeySnoc(init, g, NameKey, k);
      }
      forall i | 0 <= i < |rows| ensures NameKey(rows[i]) in m2 && m2[NameKey(rows[i])] == rows[i].id {
        if i < |init| {
          assert rows[i] == init[i];
        }
      }
    }
  }

  lemma {:induction false} FoldDictionaryErr(rows: seq<Genre>)
    requires !KeysDistinct(rows, NameKey)
    ensures FoldDictionary(rows).Err?
    decreases |rows|
  {
    assert rows != [];
    var init := rows[..|rows| - 1];
    var g := rows[|rows| - 1];
    assert rows == init + [g];
    if !KeysDistinct(init, NameKey) {
      FoldDictionaryErr(init);
    } else {
      FoldDictionaryOk(init);
      KeysDistinctSnocIff(init, g, NameKey);
    }
  }

  /** The rows `SELECT ID, Name FROM Genres WHERE Name IN @Names` returns: the
      rows named exactly like one of the names, in table order. */
  function RowsNamed(db: Store, names: seq<string>): seq<Genre> {
    Filter(GenreList(db), (g: Genre) => g.name in names)
  }

  /** `EnsureGenreIds`: the names normalised, an insert-or-ignore per name, then
      the dictionary over the rows named exactly like them. */
  function EnsuredIds(db: Store, names: seq<string>): (Store, Result<map<string, int>>) {
    var n := Normalize(names);
    if n == [] then (db, Ok(map[]))
    else
      var d := InsertAll(db, n);
      (d, FoldDictionary(RowsNamed(d, n)))
  }

  /** `ids` maps the fold of each of `n` to a row of `d` named by one of `n` with
      that fold, and has no other key. */
  ghost predicate IdsFor(d: Store, n: seq<string>, ids: map<string, int>) {
    && (forall k :: k in ids ==> ids[k] in d.genres && d.genres[ids[k]] in n && Fold(d.genres[ids[k]]) == k)
    && (forall i :: 0 <= i < |n| ==> Fold(n[i]) in ids)
  }

  /** Two of a key-distinct list with one fold are one name. */
  lemma SameFoldSameName(n: seq<string>, x: string, y: string)
    requires KeysDistinct(n, Fold) && x in n && y in n && Fold(x) == Fold(y)
    ensures x == y
  {
    var i :| 0 <= i < |n| && n[i] == x;
    var j :| 0 <= j < |n| && n[j] == y;
    assert i == j;
  }

  /** The rows a named select returns for key-distinct names have distinct keys:
      each name has one row, and fold-equal names are one name. */
  lemma RowsNamedKeysDistinct(d: Store, n: seq<string>)
    requires Valid(d) && KeysDistinct(n, Fold)
    ensures KeysDistinct(RowsNamed(d, n), NameKey)
  {
    GenreListSpec(d);
    var all := GenreList(d);
    var p := (g: Genre) => g.name in n;
    assert KeysDistinct(all, IdOf) by {
      forall i, j | 0 <= i < j < |all| ensures IdOf(all[i]) != IdOf(all[j]) {
      }
    }
    FilterKeysDistinct(all, p, IdOf);
    var rows := RowsNamed(d, n);
    forall i, j | 0 <= i < j < |rows| ensures NameKey(rows[i]) != NameKey(rows[j]) {
      NamedRowsDiffer(d, n, rows[i], rows[j]);
    }
  }

  /** Two rows with different IDs, both named by key-distinct names, differ in
      key. */
  lemma NamedRowsDiffer(d: Store, n: seq<string>, g: Genre, h: Genre)
    requires Valid(d) && KeysDistinct(n, Fold)
    requires g in GenreList(d) && h in GenreList(d) && g.name in n && h.name in n
    requires IdOf(g) != IdOf(h)
    ensures NameKey(g) != NameKey(h)
  {
    GenreListSpec(d);
    if NameKey(g) == NameKey(h) {
      SameFoldSameName(n, g.name, h.name);
    }
  }

  /** A named row is a row of the store named by one of the names. */
  lemma RowNamedIsRow(d: Store, n: seq<string>, x: Genre)
    requires Valid(d) && x in RowsNamed(d, n)
    ensures x.id in d.genres && d.genres[x.id] == x.name && x.name in n
  {
    GenreListSpec(d);
  }

  /** Every row named by one of the names is returned. */
  lemma RowNamedReturned(d: Store, n: seq<string>, g: int)
    requires Valid(d) && g in d.genres && d.genres[g] in n
    ensures Genre(g, d.genres[g]) in RowsNamed(d, n)
  {
    GenreListSpec(d);
  }

  /** A dictionary over the named rows describes them: every name's fold is a key
      for the row named so. */
  lemma RowsNamedIdsFor(d: Store, n: seq<string>)
    requires Valid(d) && KeysDistinct(n, Fold)
    requires forall i :: 0 <= i < |n| ==> HasGenreNamed(d, n[i])
    ensures FoldDictionary(RowsNamed(d, n)).Ok?
    ensures IdsFor(d, n, FoldDictionary(RowsNamed(d, n)).value)
  {
    var rows := RowsNamed(d, n);
    RowsNamedKeysDistinct(d, n);
    FoldDictionarySpec(rows);
    var ids := FoldDictionary(rows).value;
    forall k | k in ids ensures ids[k] in d.genres && d.genres[ids[k]] in n && Fold(d.genres[ids[k]]) == k {
      var i :| 0 <= i < |rows| && NameKey(rows[i]) == k;
      RowNamedIsRow(d, n, rows[i]);
    }
    forall i | 0 <= i < |n| ensures Fold(n[i]) in ids {
      NameHasKey(d, n, n[i]);
    }
  }

  /** A stored name among the names has its fold among the named rows' keys. */
  lemma NameHasKey(d: Store, n: seq<string>, x: string)
    requires Valid(d) && x in n && HasGenreNamed(d, x)
    ensures HasKey(RowsNamed(d, n), NameKey, Fold(x))
  {
    var g :| g in d.genres && d.genres[g] == x;
    RowNamedReturned(d, n, g);
    var rows := RowsNamed(d, n);
    var j :| 0 <= j < |rows| && rows[j] == Genre(g, x);
    assert NameKey(rows[j]) == Fold(x);
  }

  /** `EnsureGenreIds` never fails. It keeps the store valid, touches no book or
      link, keeps every row and its ID, and adds rows only for normalised names
      not stored exactly. The dictionary maps the fold of each normalised name to
      the row named exactly that, the old row when there was one. */
  lemma EnsuredIdsSpec(db: Store, names: seq<string>)
    requires Valid(db)
    ensures var (d, r) := EnsuredIds(db, names);
      var n := Normalize(names);
      && Valid(d) && d.books == db.books && d.links == db.links && d.nextBookId == db.nextBookId
      && (forall id :: id in db.genres ==> id in d.genres && d.genres[id] == db.genres[id])
      && (forall id :: id in d.genres && id !in db.genres ==> d.genres[id] in n && !HasGenreNamed(db, d.genres[id]))
      && r.Ok? && IdsFor(d, n, r.value)
      && (forall i :: 0 <= i < |n| ==> d.genres[r.value[Fold(n[i])]] == n[i])
      && (forall i, g :: 0 <= i < |n| && g in db.genres && db.genres[g] == n[i] ==> r.value[Fold(n[i])] == g)
  {
    var n := Normalize(names);
    NormalizeSpec(names);
    if n != [] {
      InsertAllSpec(db, n);
      var d := InsertAll(db, n);
      RowsNamedIdsFor(d, n);
      var ids := FoldDictionary(RowsNamed(d, n)).value;
      forall i | 0 <= i < |n| ensures d.genres[ids[Fold(n[i])]] == n[i] {
        SameFoldSameName(n, d.genres[ids[Fold(n[i])]], n[i]);
      }
    }
  }

  /** The link inserts of `ReplaceGenres`: for each extracted name, duplicates
      included, a link to the ID its fold maps to; a name without an ID is
      skipped, and a failing insert fails the whole call. */
  function LinkEach(d: Store, bookId: int, names: seq<string>, ids: map<string, int>): Result<Store>
    decreases |names|
  {
    if names == [] then Ok(d)
    else
      match LinkEach(d, bookId, names[..|names| - 1], ids)
      case Err(e) => Err(e)
      case Ok(d1) =>
        var k := Fold(names[|names| - 1]);
        if k !in ids then Ok(d1) else InsertLink(d1, Link(bookId, ids[k]))
  }

  /** The links the inserts aim at. */
  function LinkTargets(bookId: int, names: seq<string>, ids: map<string, int>): set<Link> {
    set i | 0 <= i < |names| && Fold(names[i]) in ids :: Link(bookId, ids[Fold(names[i])])
  }

  /** Different keys of the map give different IDs. */
  ghost predicate Injective(ids: map<string, int>) {
    forall a, b :: a in ids && b in ids && ids[a] == ids[b] ==> a == b
  }

  /** One more name aims at one more link. */
  lemma LinkTargetsSnoc(bookId: int, init: seq<string>, m: string, ids: map<string, int>)
    requires Fold(m) in ids
    ensures LinkTargets(bookId, init + [m], ids) == LinkTargets(bookId, init, ids) + {Link(bookId, ids[Fold(m)])}
  {
    var names := init + [m];
    forall x | x in LinkTargets(bookId, names, ids) ensures x in LinkTargets(bookId, init, ids) + {Link(bookId, ids[Fold(m)])} {
      var i :| 0 <= i < |names| && Fold(names[i]) in ids && x == Link(bookId, ids[Fold(names[i])]);
      if i < |init| {
        assert names[i] == init[i];
      }
    }
    forall x | x in LinkTargets(bookId, init, ids) ensures x in LinkTargets(bookId, names, ids) {
      var i :| 0 <= i < |init| && Fold(init[i]) in ids && x == Link(bookId, ids[Fold(init[i])]);
      assert names[i] == init[i];
    }
    assert names[|init|] == m;
  }

  /** With an injective map, a name's link is already aimed at exactly when an
      earlier name has its fold. */
  lemma LinkTargetHit(bookId: int, init: seq<string>, m: string, ids: map<string, int>)
    requires Injective(ids) && Fold(m) in ids
    requires forall i :: 0 <= i < |init| ==> Fold(init[i]) in ids
    ensures Link(bookId, ids[Fold(m)]) in LinkTargets(bookId, init, ids) <==> HasKey(init, Fold, Fold(m))
  {
    if HasKey(init, Fold, Fold(m)) {
      var i :| 0 <= i < |init| && Fold(init[i]) == Fold(m);
      assert Link(bookId, ids[Fold(init[i])]) in LinkTargets(bookId, init, ids);
    }
  }

  /** From a book without links, the inserts succeed exactly when no two names
      share a fold; a duplicate fails on its second link. On success exactly the
      aimed-at links are added. */
  lemma {:induction false} LinkEachSpec(d: Store, bookId: int, names: seq<string>, ids: map<string, int>)
    requires Valid(d) && bookId in d.books && LinksOf(d, bookId) == {}
    requires forall k :: k in ids ==> ids[k] in d.genres
    requires forall i :: 0 <= i < |names| ==> Fold(names[i]) in ids
    requires Injective(ids)
    ensures LinkEach(d, bookId, names, ids).Ok? <==> KeysDistinct(names, Fold)
    ensures LinkEach(d, bookId, names, ids).Ok? ==>
      LinkEach(d, bookId, names, ids).value == d.(links := d.links + LinkTargets(bookId, names, ids))
    ensures LinkEach(d, bookId, names, ids).Err? ==> LinkEach(d, bookId, names, ids).error.DuplicateLink?
    decreases |names|
  {
    if names != [] {
      var init := names[..|names| - 1];
      var m := names[|names| - 1];
      assert names == init + [m];
      LinkEachSpec(d, bookId, init, ids);
      if KeysDistinct(init, Fold) {
        LinkEachStep(d, bookId, init, m, ids);
      } else {
        assert !KeysDistinct(names, Fold) by {
          var i, j :| 0 <= i < j < |init| && Fold(init[i]) == Fold(init[j]);
          assert names[i] == init[i] && names[j] == init[j];
        }
      }
    }
  }

  /** The step of `LinkEachSpec` for a key-distinct prefix. */
  lemma LinkEachStep(d: Store, bookId: int, init: seq<string>, m: string, ids: map<string, int>)
    requires Valid(d) && bookId in d.books && LinksOf(d, bookId) == {}
    requires forall k :: k in ids ==> ids[k] in d.genres
    requires forall i :: 0 <= i < |init| ==> Fold(init[i]) in ids
    requires Fold(m) in ids && Injective(ids) && KeysDistinct(init, Fold)
    requires LinkEach(d, bookId, init, ids) == Ok(d.(links := d.links + LinkTargets(bookId, init, ids)))
    ensures LinkEach(d, bookId, init + [m], ids).Ok? <==> KeysDistinct(init + [m], Fold)
    ensures LinkEach(d, bookId, init + [m], ids).Ok? ==>
      LinkEach(d, bookId, init + [m], ids).value == d.(links := d.links + LinkTargets(bookId, init + [m], ids))
    ensures LinkEach(d, bookId, init + [m], ids).Err? ==> LinkEach(d, bookId, init + [m], ids).error.DuplicateLink?
  {
    var names := init + [m];
    assert names[..|names| - 1] == init && names[|names| - 1] == m;
    var l := Link(bookId, ids[Fold(m)]);
    assert l !in d.links by {
      assert l !in LinksOf(d, bookId);
    }
    LinkTargetsSnoc(bookId, init, m, ids);
    LinkTargetHit(bookId, init, m, ids);
    KeysDistinctSnocIff(init, m, Fold);
  }

  /** Once an insert has failed, the rest of the loop does not run. */
  lemma {:induction false} LinkEachErrSticks(d: Store, bookId: int, names: seq<string>, ids: map<string, int>, k: nat)
    requires k <= |names| && LinkEach(d, bookId, names[..k], ids).Err?
    ensures LinkEach(d, bookId, names, ids) == LinkEach(d, bookId, names[..k], ids)
    decreases |names| - k
  {
    if k < |names| {
      assert names[..k + 1][..k] == names[..k];
      LinkEachErrSticks(d, bookId, names, ids, k + 1);
    } else {
      assert names[..k] == names;
    }
  }

  /** `ReplaceGenres`: the book's links deleted; when names remain, the genre
      IDs ensured and one link inserted per name. */
  function Replaced(tx: Store, b: Book): Result<Store> {
    var d := DeleteLinksOf(tx, b.id);
    var names := ExtractGenreNames(b);
    if names == [] then Ok(d)
    else
      var (d2, r) := EnsuredIds(d, names);
      match r
      case Err(e) => Err(e)
      case Ok(ids) => LinkEach(d2, b.id, names, ids)
  }

  /** A dictionary for the normalised names of clean names serves every one of
      those names, to a row of the store, and sends different keys to different
      rows. */
  lemma IdsServeNames(d: Store, names: seq<string>, ids: map<string, int>)
    requires AllClean(names) && IdsFor(d, Normalize(names), ids)
    ensures forall i :: 0 <= i < |names| ==> Fold(names[i]) in ids
    ensures forall k :: k in ids ==> ids[k] in d.genres
    ensures Injective(ids)
  {
    var n := Normalize(names);
    NormalizeSpec(names);
    forall i | 0 <= i < |names| ensures Fold(names[i]) in ids {
      TrimOfTrimmed(names[i]);
      var j :| 0 <= j < |n| && Fold(n[j]) == Fold(Trim(names[i]));
    }
  }

  /** For clean, key-distinct names the aimed-at links go to exactly the rows
      named like one of them. */
  lemma LinkTargetsExactly(d: Store, bookId: int, names: seq<string>, ids: map<string, int>)
    requires Valid(d) && KeysDistinct(names, Fold) && IdsFor(d, names, ids)
    ensures forall g :: Link(bookId, g) in LinkTargets(bookId, names, ids) <==> g in d.genres && d.genres[g] in names
    ensures forall i :: 0 <= i < |names| ==> HasGenreNamed(d, names[i])
  {
    forall i | 0 <= i < |names| ensures HasGenreNamed(d, names[i]) {
      var h := ids[Fold(names[i])];
      SameFoldSameName(names, d.genres[h], names[i]);
    }
    forall g ensures Link(bookId, g) in LinkTargets(bookId, names, ids) <==> g in d.genres && d.genres[g] in names {
      if Link(bookId, g) in LinkTargets(bookId, names, ids) {
        var i :| 0 <= i < |names| && Fold(names[i]) in ids && Link(bookId, g) == Link(bookId, ids[Fold(names[i])]);
      }
      if g in d.genres && d.genres[g] in names {
        var i :| 0 <= i < |names| && names[i] == d.genres[g];
        var h := ids[Fold(names[i])];
        SameFoldSameName(names, d.genres[h], names[i]);
        assert Link(bookId, h) in LinkTargets(bookId, names, ids);
      }
    }
  }

  /** The normalised form of clean, key-distinct names is the names themselves. */
  lemma NormalizeOfDistinctClean(names: seq<string>)
    requires AllClean(names) && KeysDistinct(names, Fold)
    ensures Normalize(names) == names
  {
    CleanNamesOfClean(names);
    DistinctOnOfDistinct(names, Fold);
  }

  /** Each of the normalised names is one of the clean input names. */
  lemma NormalizedFromClean(names: seq<string>)
    requires AllClean(names)
    ensures forall i :: 0 <= i < |Normalize(names)| ==> Normalize(names)[i] in names
  {
    NormalizeSpec(names);
    CleanNamesOfClean(names);
  }

  /** `ReplaceGenres` succeeds exactly when no two extracted names are equal
      ignoring case, and otherwise fails on a duplicate link. On success the
      store stays valid, no book row changes, and the book is linked to exactly
      the rows named exactly like one of its extracted names. No other book's
      links change, every old row keeps its ID and name, and a row is created
      only for an extracted name not stored exactly. */
  lemma ReplacedSpec(tx: Store, b: Book)
    requires Valid(tx) && b.id in tx.books
    ensures var r := Replaced(tx, b);
      var names := ExtractGenreNames(b);
      && (r.Ok? <==> KeysDistinct(names, Fold))
      && (r.Err? ==> r.error.DuplicateLink?)
      && (r.Ok? ==>
            && Valid(r.value) && r.value.books == tx.books
            && r.value.nextBookId == tx.nextBookId
            && (forall g :: Link(b.id, g) in r.value.links <==> g in r.value.genres && r.value.genres[g] in names)
            && (forall i :: 0 <= i < |names| ==> HasGenreNamed(r.value, names[i]))
            && (forall l: Link :: l.bookId != b.id ==> (l in r.value.links <==> l in tx.links))
            && (forall id :: id in tx.genres ==> id in r.value.genres && r.value.genres[id] == tx.genres[id])
            && (forall id :: id in r.value.genres && id !in tx.genres ==>
                  r.value.genres[id] in names && !HasGenreNamed(tx, r.value.genres[id])))
  {
    var d := DeleteLinksOf(tx, b.id);
    DeleteLinksOfSpec(tx, b.id);
    var names := ExtractGenreNames(b);
    ExtractGenreNamesSpec(b);
    if names != [] {
      var (d2, r) := EnsuredIds(d, names);
      EnsuredIdsSpec(d, names);
      NormalizedFromClean(names);
      LinksAfterEnsure(tx, d2, b.id, names, r.value);
    }
  }

  /** The link stage of `ReplaceGenres`, from the store the ensured IDs left:
      the book's old links are gone and the dictionary serves the normalised
      names. */
  lemma LinksAfterEnsure(tx: Store, d2: Store, bookId: int, names: seq<string>, ids: map<string, int>)
    requires Valid(tx) && bookId in tx.books && AllClean(names)
    requires Valid(d2) && d2.books == tx.books && d2.nextBookId == tx.nextBookId
    requires d2.links == tx.links - LinksOf(tx, bookId)
    requires forall id :: id in tx.genres ==> id in d2.genres && d2.genres[id] == tx.genres[id]
    requires forall id :: id in d2.genres && id !in tx.genres ==>
      d2.genres[id] in Normalize(names) && !HasGenreNamed(tx, d2.genres[id])
    requires forall i :: 0 <= i < |Normalize(names)| ==> Normalize(names)[i] in names
    requires IdsFor(d2, Normalize(names), ids)
    ensures var r := LinkEach(d2, bookId, names, ids);
      && (r.Ok? <==> KeysDistinct(names, Fold))
      && (r.Err? ==> r.error.DuplicateLink?)
      && (r.Ok? ==>
            && Valid(r.value) && r.value.books == tx.books
            && r.value.nextBookId == tx.nextBookId
            && (forall g :: Link(bookId, g) in r.value.links <==> g in r.value.genres && r.value.genres[g] in names)
            && (forall i :: 0 <= i < |names| ==> HasGenreNamed(r.value, names[i]))
            && (forall l: Link :: l.bookId != bookId ==> (l in r.value.links <==> l in tx.links))
            && (forall id :: id in tx.genres ==> id in r.value.genres && r.value.genres[id] == tx.genres[id])
            && (forall id :: id in r.value.genres && id !in tx.genres ==>
                  r.value.genres[id] in names && !HasGenreNamed(tx, r.value.genres[id])))
  {
    assert LinksOf(d2, bookId) == {};
    IdsServeNames(d2, names, ids);
    LinkEachSpec(d2, bookId, names, ids);
    if KeysDistinct(names, Fold) {
      NormalizeOfDistinctClean(names);
      LinkTargetsExactly(d2, bookId, names, ids);
      var r := LinkEach(d2, bookId, names, ids).value;
      assert r.genres == d2.genres;
      forall l: Link | l.bookId != bookId ensures l in r.links <==> l in tx.links {
        assert l !in LinkTargets(bookId, names, ids);
      }
      assert Valid(r) by {
        assert forall l :: l in LinkTargets(bookId, names, ids) ==> l.bookId == bookId;
      }
    }
  }

  /** `Add`: the row inserted under the next book ID, which the entity takes, and
      its genres replaced in the same transaction. On failure the transaction is
      rolled back and the store is as before. The entity keeps the genre objects
      it came with. */
  function Added(db: Store, b: Book): (Store, Result<Book>) {
    var (d, id) := InsertBook(db, BookRow(b.title, b.author, b.year));
    var a := b.(id := id);
    match Replaced(d, a)
    case Ok(d2) => (d2, Ok(a))
    case Err(e) => (db, Err(e))
  }

  /** `Update`: false with nothing changed when no row has the ID; otherwise the
      row overwritten and the genres replaced in one transaction, rolled back on
      failure. */
  function Updated(db: Store, b: Book): (Store, Result<bool>) {
    if b.id !in db.books then (db, Ok(false))
    else
      match Replaced(UpdateBookRow(db, b.id, BookRow(b.title, b.author, b.year)), b)
      case Ok(d) => (d, Ok(true))
      case Err(e) => (db, Err(e))
  }

  /** `Add` succeeds exactly when the book's extracted names are pairwise
      different ignoring case. It then stores the row under the next book ID and
      links the book to exactly the rows named like its extracted names, with no
      other book's links changed. On failure the store is unchanged. */
  lemma AddedSpec(db: Store, b: Book)
    requires Valid(db)
    ensures var (d, r) := Added(db, b);
      && Valid(d)
      && (r.Ok? <==> KeysDistinct(ExtractGenreNames(b), Fold))
      && (r.Err? ==> d == db && r.error.DuplicateLink?)
      && (r.Ok? ==>
            && r.value == b.(id := db.nextBookId) && db.nextBookId !in db.books
            && d.books == db.books[db.nextBookId := BookRow(b.title, b.author, b.year)]
            && (forall g :: Link(db.nextBookId, g) in d.links <==> g in d.genres && d.genres[g] in ExtractGenreNames(b))
            && (forall i :: 0 <= i < |ExtractGenreNames(b)| ==> HasGenreNamed(d, ExtractGenreNames(b)[i]))
            && (forall l: Link :: l.bookId != db.nextBookId ==> (l in d.links <==> l in db.links))
            && (forall id :: id in db.genres ==> id in d.genres && d.genres[id] == db.genres[id])
            && (forall id :: id in d.genres && id !in db.genres ==>
                  d.genres[id] in ExtractGenreNames(b) && !HasGenreNamed(db, d.genres[id])))
  {
    var (d, id) := InsertBook(db, BookRow(b.title, b.author, b.year));
    InsertBookValid(db, BookRow(b.title, b.author, b.year));
    var a := b.(id := id);
    assert ExtractGenreNames(a) == ExtractGenreNames(b);
    ReplacedSpec(d, a);
  }

  /** `Update` on an absent ID returns false and changes nothing. On a present ID
      it succeeds exactly when the extracted names are pairwise different ignoring
      case; it then overwrites title, author and year and links the book to
      exactly the rows named like its extracted names. On failure the store is
      unchanged. */
  lemma UpdatedSpec(db: Store, b: Book)
    requires Valid(db)
    ensures b.id !in db.books ==> Updated(db, b) == (db, Ok(false))
    ensures b.id in db.books ==>
      var (d, r) := Updated(db, b);
      && Valid(d)
      && (r.Ok? <==> KeysDistinct(ExtractGenreNames(b), Fold))
      && (r.Ok? ==> r.value)
      && (r.Err? ==> d == db && r.error.DuplicateLink?)
      && (r.Ok? ==>
            && d.books == db.books[b.id := BookRow(b.title, b.author, b.year)]
            && (forall g :: Link(b.id, g) in d.links <==> g in d.genres && d.genres[g] in ExtractGenreNames(b))
            && (forall i :: 0 <= i < |ExtractGenreNames(b)| ==> HasGenreNamed(d, ExtractGenreNames(b)[i]))
            && (forall l: Link :: l.bookId != b.id ==> (l in d.links <==> l in db.links))
            && (forall id :: id in db.genres ==> id in d.genres && d.genres[id] == db.genres[id])
            && (forall id :: id in d.genres && id !in db.genres ==>
                  d.genres[id] in ExtractGenreNames(b) && !HasGenreNamed(db, d.genres[id])))
  {
    if b.id in db.books {
      ReplacedSpec(UpdateBookRow(db, b.id, BookRow(b.title, b.author, b.year)), b);
    }
  }

  /** Ordinal order of genre names: the `ORDER BY g.Name` of the genre query. */
  predicate GenreNameLe(a: Genre, b: Genre) {
    StringLe(a.name, b.name)
  }

  lemma GenreNameLeTotalPreorder()
    ensures TotalPreorder(GenreNameLe)
  {
    forall a: Genre, b: Genre ensures GenreNameLe(a, b) || GenreNameLe(b, a) {
      StringLeTotal(a.name, b.name);
    }
    forall a: Genre, b: Genre, c: Genre | GenreNameLe(a, b) && GenreNameLe(b, c) ensures GenreNameLe(a, c) {
      StringLeTransitive(a.name, b.name, c.name);
    }
  }

  /** The genres `AttachGenres` gives a book: its linked rows ordered by name. */
  function AttachedGenres(db: Store, bookId: int): seq<Genre> {
    SortBy(LinkedGenres(db, bookId), GenreNameLe)
  }

  /** A book's attached genres are exactly the rows it is linked to, each once,
      ordered by name. */
  lemma AttachedGenresSpec(db: Store, bookId: int)
    requires Valid(db)
    ensures var r := AttachedGenres(db, bookId);
      && SortedBy(r, GenreNameLe)
      && (forall g :: g in r <==> Link(bookId, g.id) in db.links && g.id in db.genres && g.name == db.genres[g.id])
      && KeysDistinct(r, IdOf)
  {
    var s := LinkedGenres(db, bookId);
    var r := AttachedGenres(db, bookId);
    GenreNameLeTotalPreorder();
    SortBySorted(s, GenreNameLe);
    LinkedGenresSpec(db, bookId);
    forall g ensures g in r <==> Link(bookId, g.id) in db.links && g.id in db.genres && g.name == db.genres[g.id] {
      if g in r {
        assert g in multiset(s);
        var i :| 0 <= i < |s| && s[i] == g;
      }
      if Link(bookId, g.id) in db.links && g.id in db.genres && g.name == db.genres[g.id] {
        assert g in s;
        assert g in multiset(r);
      }
    }
    assert KeysDistinct(s, IdOf) by {
      forall i, j | 0 <= i < j < |s| ensures IdOf(s[i]) != IdOf(s[j]) {
      }
    }
    PermutationKeysDistinct(r, s, IdOf);
  }

  /** The lookup `AttachGenres` builds: the genres of each listed book that has
      any, grouped by book. */
  function GenreLookup(db: Store, ids: set<int>): map<int, seq<Genre>> {
    map id | id in ids && LinkedGenres(db, id) != [] :: AttachedGenres(db, id)
  }

  /** `TryGetValue` on the lookup, with a new empty list when the book is not
      in it. */
  function LookupGenres(lookup: map<int, seq<Genre>>, id: int): seq<Genre> {
    if id in lookup then lookup[id] else []
  }

  /** A listed book gets its attached genres from the lookup; a book without
      links is left out of the lookup and gets none, which is the same. */
  lemma GenreLookupSpec(db: Store, ids: set<int>, id: int)
    requires id in ids
    ensures LookupGenres(GenreLookup(db, ids), id) == AttachedGenres(db, id)
  {
  }

  /** A book as read: its row and its attached genres. */
  function BookAt(db: Store, id: int): Book
    requires id in db.books
  {
    Book(id, db.books[id].title, db.books[id].author, db.books[id].year, AttachedGenres(db, id))
  }

  /** `SELECT ID, Title, Author, Year FROM Books ORDER BY ID`: the rows as books
      without genres. */
  function BookRows(db: Store): (r: seq<Book>)
    requires Valid(db)
    ensures |r| == |BookIds(db)|
    ensures forall i :: 0 <= i < |r| ==> r[i].id == BookIds(db)[i] && r[i].id in db.books
  {
    BookIdsSpec(db);
    var ids := BookIds(db);
    seq(|ids|, i requires 0 <= i < |ids| => Book(ids[i], db.books[ids[i]].title, db.books[ids[i]].author, db.books[ids[i]].year, []))
  }

  /** Every book as `GetAll` reads it, ordered by ID. */
  function ListAll(db: Store): seq<Book>
    requires Valid(db)
  {
    BookIdsSpec(db);
    var ids := BookIds(db);
    seq(|ids|, i requires 0 <= i < |ids| => BookAt(db, ids[i]))
  }

  /** `GetById` as a value: the stored book under the ID, if any. */
  function FindById(db: Store, id: int): Option<Book> {
    if id in db.books then Some(BookAt(db, id)) else None
  }

  /** `GetAll` lists each stored book once, ascending by ID, with its row and its
      genres ordered by name. */
  lemma ListAllSpec(db: Store)
    requires Valid(db)
    ensures forall i :: 0 <= i < |ListAll(db)| ==>
      ListAll(db)[i].id in db.books && ListAll(db)[i] == BookAt(db, ListAll(db)[i].id)
    ensures forall id :: id in db.books ==> BookAt(db, id) in ListAll(db)
    ensures forall i, j :: 0 <= i < j < |ListAll(db)| ==> ListAll(db)[i].id < ListAll(db)[j].id
  {
    BookIdsSpec(db);
    ListedSpec(db, BookIds(db), ListAll(db));
  }

  /** The books read under ascending IDs covering every stored book. */
  lemma ListedSpec(db: Store, ids: seq<int>, xs: seq<Book>)
    requires forall i :: 0 <= i < |ids| ==> ids[i] in db.books
    requires forall id :: id in db.books ==> id in ids
    requires forall i, j :: 0 <= i < j < |ids| ==> ids[i] < ids[j]
    requires |xs| == |ids| && forall i :: 0 <= i < |ids| ==> xs[i] == BookAt(db, ids[i])
    ensures forall i :: 0 <= i < |xs| ==> xs[i].id in db.books && xs[i] == BookAt(db, xs[i].id)
    ensures forall id :: id in db.books ==> BookAt(db, id) in xs
    ensures forall i, j :: 0 <= i < j < |xs| ==> xs[i].id < xs[j].id
  {
    forall id | id in db.books ensures BookAt(db, id) in xs {
      var i :| 0 <= i < |ids| && ids[i] == id;
      assert xs[i] == BookAt(db, id);
    }
  }

  /** `GetAllGenres`: the names in ordinal order, then cleaned and deduplicated
      ignoring case, with no second sort. */
  function GetAllGenres(db: Store): seq<string> {
    Normalize(SortBy(NamesOf(GenreList(db)), StringLe))
  }

  lemma StringLeTotalPreorder()
    ensures TotalPreorder(StringLe)
  {
    forall a: string, b: string ensures StringLe(a, b) || StringLe(b, a) {
      StringLeTotal(a, b);
    }
    forall a: string, b: string, c: string | StringLe(a, b) && StringLe(b, c) ensures StringLe(a, c) {
      StringLeTransitive(a, b, c);
    }
  }

  /** `n` is the trimmed form of a non-blank member of `xs`. */
  ghost predicate TrimOfMember(xs: seq<string>, n: string) {
    exists x :: x in xs && !IsBlank(x) && n == Trim(x)
  }

  /** `n` is the trimmed form of the name of a stored row. */
  ghost predicate TrimOfStored(db: Store, n: string) {
    exists id :: id in db.genres && n == Trim(db.genres[id])
  }

  /** Normalising yields clean, key-distinct names, one for the fold of every
      non-blank member, each the trimmed form of a non-blank member. */
  lemma NormalizeMembers(xs: seq<string>)
    ensures var r := Normalize(xs);
      && AllClean(r) && KeysDistinct(r, Fold)
      && (forall x :: x in xs && !IsBlank(x) ==> HasKey(r, Fold, Fold(Trim(x))))
      && (forall i :: 0 <= i < |r| ==> TrimOfMember(xs, r[i]))
  {
    NormalizeSpec(xs);
    CleanNamesFrom(xs);
    forall x | x in xs && !IsBlank(x) ensures HasKey(Normalize(xs), Fold, Fold(Trim(x))) {
      var i :| 0 <= i < |xs| && xs[i] == x;
    }
    forall i | 0 <= i < |Normalize(xs)| ensures TrimOfMember(xs, Normalize(xs)[i]) {
      var n := Normalize(xs)[i];
      assert n in CleanNames(xs);
      var k :| 0 <= k < |xs| && !IsBlank(xs[k]) && n == Trim(xs[k]);
      assert xs[k] in xs && !IsBlank(xs[k]) && n == Trim(xs[k]);
    }
  }

  /** The names of the scanned rows are the stored names. */
  lemma RowNames(db: Store)
    requires Valid(db)
    ensures forall x :: x in NamesOf(GenreList(db)) <==> HasGenreNamed(db, x)
  {
    var gs := GenreList(db);
    var names := NamesOf(gs);
    GenreListSpec(db);
    forall x ensures x in names <==> HasGenreNamed(db, x) {
      if x in names {
        var k :| 0 <= k < |names| && names[k] == x;
        assert gs[k].id in db.genres && db.genres[gs[k].id] == x;
      }
      if HasGenreNamed(db, x) {
        var id :| id in db.genres && db.genres[id] == x;
        var k :| 0 <= k < |gs| && gs[k] == Genre(id, x);
        assert names[k] == x;
      }
    }
  }

  /** The stored names, in any order, are the names of the rows. */
  lemma StoredNames(db: Store, sorted: seq<string>)
    requires Valid(db) && multiset(sorted) == multiset(NamesOf(GenreList(db)))
    ensures forall x :: x in sorted <==> HasGenreNamed(db, x)
  {
    var names := NamesOf(GenreList(db));
    RowNames(db);
    forall x ensures x in sorted <==> x in names {
      assert x in sorted <==> x in multiset(sorted);
      assert x in names <==> x in multiset(names);
    }
  }

  /** Names that cover every non-blank stored name cover the fold of every
      non-blank row. */
  lemma NamesCoverRows(db: Store, xs: seq<string>, r: seq<string>)
    requires forall x :: HasGenreNamed(db, x) ==> x in xs
    requires forall x :: x in xs && !IsBlank(x) ==> HasKey(r, Fold, Fold(Trim(x)))
    ensures forall id :: id in db.genres && !IsBlank(db.genres[id]) ==> HasKey(r, Fold, Fold(Trim(db.genres[id])))
  {
    forall id | id in db.genres && !IsBlank(db.genres[id]) ensures HasKey(r, Fold, Fold(Trim(db.genres[id]))) {
      assert HasGenreNamed(db, db.genres[id]);
    }
  }

  /** Names trimmed from stored names are trimmed row names. */
  lemma NamesFromRows(db: Store, xs: seq<string>, r: seq<string>)
    requires forall x :: x in xs ==> HasGenreNamed(db, x)
    requires forall i :: 0 <= i < |r| ==> TrimOfMember(xs, r[i])
    ensures forall i :: 0 <= i < |r| ==> TrimOfStored(db, r[i])
  {
    forall i | 0 <= i < |r| ensures TrimOfStored(db, r[i]) {
      var n := r[i];
      var x :| x in xs && !IsBlank(x) && n == Trim(x);
      assert HasGenreNamed(db, x);
      var id :| id in db.genres && db.genres[id] == x;
      assert id in db.genres && n == Trim(db.genres[id]);
    }
  }

  /** `GetAllGenres` yields trimmed non-blank names, pairwise different ignoring
      case, one for the fold of every non-blank stored name, each the trimmed
      form of a stored name. */
  lemma GetAllGenresSpec(db: Store)
    requires Valid(db)
    ensures var r := GetAllGenres(db);
      && AllClean(r) && KeysDistinct(r, Fold)
      && (forall id :: id in db.genres && !IsBlank(db.genres[id]) ==> HasKey(r, Fold, Fold(Trim(db.genres[id]))))
      && (forall i :: 0 <= i < |r| ==> TrimOfStored(db, r[i]))
  {
    var sorted := SortBy(NamesOf(GenreList(db)), StringLe);
    NormalizeMembers(sorted);
    StoredNames(db, sorted);
    NamesCoverRows(db, sorted, Normalize(sorted));
    NamesFromRows(db, sorted, Normalize(sorted));
  }

  /** A store with rows 1 "a" and 2 "Z". */
  function TwoRows(): Store {
    Store(map[], map[1 := "a", 2 := "Z"], {}, 1, 3)
  }

  lemma TwoKeysScan()
    ensures AscendingKeys({1, 2}, 1, 3) == [1, 2]
  {
    assert AscendingKeys({1, 2}, 1, 1) == [];
    assert AscendingKeys({1, 2}, 1, 2) == [1];
  }

  /** The scan of the two-row store. */
  lemma TwoRowScan()
    ensures GenreList(TwoRows()) == [Genre(1, "a"), Genre(2, "Z")]
  {
    assert TwoRows().genres.Keys == {1, 2};
    TwoKeysScan();
  }

  lemma TwoRowNames()
    ensures NamesOf([Genre(1, "a"), Genre(2, "Z")]) == ["a", "Z"]
  {
  }

  /** Ordinally "Z" sorts before "a". */
  lemma OrdinalSortZa()
    ensures SortBy(["a", "Z"], StringLe) == ["Z", "a"]
  {
    assert !StringLe("a", "Z");
    assert ["a", "Z"][..1] == ["a"];
    assert SortBy(["a"], StringLe) == ["a"];
    assert Insert(["a"], "Z", StringLe) == ["Z", "a"];
  }

  /** "Z" and "a" are clean and their folds are "z" and "a". */
  lemma ZaSpellings()
    ensures AllClean(["Z", "a"])
    ensures Fold("Z") == "z" && Fold("a") == "a"
  {
    var names := ["Z", "a"];
    forall i | 0 <= i < 2 ensures IsTrimmed(names[i]) && !IsBlank(names[i]) {
      assert !IsWhiteSpace(names[i][0]);
    }
    FoldSingle('Z');
    FoldSingle('a');
  }

  /** "Z" and "a" differ ignoring case, so normalising keeps both. */
  lemma NormalizeZa()
    ensures Normalize(["Z", "a"]) == ["Z", "a"]
  {
    ZaSpellings();
    PairKeysDistinct("Z", "a", Fold);
    NormalizeOfDistinctClean(["Z", "a"]);
  }

  /** Ignoring case, "Z" comes after "a". */
  lemma ZaNotFoldSorted()
    ensures !SortedBy(["Z", "a"], FoldLe)
  {
    var xs := ["Z", "a"];
    assert Fold("Z") == "z" && Fold("a") == "a";
    assert !StringLe("z", "a");
    assert !FoldLe(xs[0], xs[1]);
  }

  /** The list is not ordered ignoring case: with rows "a" and "Z" it starts
      with "Z", because upper-case letters sort before lower-case ones
      ordinally. */
  lemma GetAllGenresOrdinalOrder()
    ensures GetAllGenres(TwoRows()) == ["Z", "a"]
    ensures !SortedBy(GetAllGenres(TwoRows()), FoldLe)
  {
    TwoRowScan();
    TwoRowNames();
    OrdinalSortZa();
    NormalizeZa();
    ZaNotFoldSorted();
  }

  /** The repository over a connection string: the store it opens connections
      to. */
  class DapperBookRepository {
    var db: Store

    ghost predicate Valid()
      reads this
    {
      Schema.Valid(db)
    }

    constructor(store: Store)
      requires Schema.Valid(store)
      ensures Valid() && db == store
    {
      db := store;
    }

    /** `EnsureGenreIds`: an insert-or-ignore per normalised name, then the
        dictionary over the rows the named select returns. */
    static method EnsureGenreIds(tx: Store, names: seq<string>) returns (d: Store, ids: Result<map<string, int>>)
      ensures (d, ids) == EnsuredIds(tx, names)
    {
      var normalized := Normalize(names);
      if normalized == [] {
        return tx, Ok(map[]);
      }
      d := tx;
      for i := 0 to |normalized|
        invariant d == InsertAll(tx, normalized[..i])
      {
        assert normalized[..i + 1][..i] == normalized[..i];
        d := InsertGenreOrIgnore(d, normalized[i]);
      }
      assert normalized[..|normalized|] == normalized;
      ids := FoldDictionary(RowsNamed(d, normalized));
    }

    /** The link loop of `ReplaceGenres`: one insert per name whose fold has an
        ID, stopping at the first failing insert. */
    static method LinkAll(d0: Store, bookId: int, names: seq<string>, ids: map<string, int>) returns (r: Result<Store>)
      ensures r == LinkEach(d0, bookId, names, ids)
    {
      var d := d0;
      for i := 0 to |names|
        invariant LinkEach(d0, bookId, names[..i], ids) == Ok(d)
      {
        assert names[..i + 1][..i] == names[..i];
        var key := Fold(names[i]);
        if key in ids {
          var inserted := InsertLink(d, Link(bookId, ids[key]));
          if inserted.Err? {
            LinkEachErrSticks(d0, bookId, names, ids, i + 1);
            return Err(inserted.error);
          }
          d := inserted.value;
        }
      }
      assert names[..|names|] == names;
      return Ok(d);
    }

    /** `ReplaceGenres`: delete the book's links, then, when names remain, ensure
        their IDs and insert one link per name. */
    static method ReplaceGenres(tx: Store, entity: Book) returns (r: Result<Store>)
      ensures r == Replaced(tx, entity)
    {
      var d := DeleteLinksOf(tx, entity.id);
      var names := ExtractGenreNames(entity);
      if names == [] {
        return Ok(d);
      }
      var d2, found := EnsureGenreIds(d, names);
      if found.Err? {
        return Err(found.error);
      }
      r := LinkAll(d2, entity.id, names, found.value);
    }

    /** `AttachGenres`: every book of the list gets its genres from the lookup,
        or none when the lookup lacks it. */
    static method AttachGenres(db: Store, books: array<Book>)
      modifies books
      ensures forall i :: 0 <= i < books.Length ==>
        books[i] == old(books[i]).(genres := AttachedGenres(db, old(books[i]).id))
    {
      if books.Length == 0 {
        return;
      }
      var list := books[..];
      var ids := set j | 0 <= j < |list| :: list[j].id;
      var lookup := GenreLookup(db, ids);
      for i := 0 to books.Length
        invariant forall j :: 0 <= j < i ==> books[j] == list[j].(genres := AttachedGenres(db, list[j].id))
        invariant forall j :: i <= j < books.Length ==> books[j] == list[j]
      {
        var book := books[i];
        assert book == list[i] && book.id in ids;
        GenreLookupSpec(db, ids, book.id);
        var genres := LookupGenres(lookup, book.id);
        assert genres == AttachedGenres(db, list[i].id);
        books[i] := book.(genres := genres);
      }
    }

    /** `GetAll`: the book rows ordered by ID, with their genres attached. */
    method GetAll() returns (books: seq<Book>)
      requires Valid()
      ensures books == ListAll(db)
    {
      var rows := BookRows(db);
      var list := new Book[|rows|](i requires 0 <= i < |rows| => rows[i]);
      AttachGenres(db, list);
      books := list[..];
      assert |books| == |ListAll(db)|;
      forall i | 0 <= i < |books| ensures books[i] == ListAll(db)[i] {
        assert books[i] == rows[i].(genres := AttachedGenres(db, rows[i].id));
      }
    }

    /** `GetById`: nothing for an absent ID; otherwise the row with its genres
        attached. */
    method GetById(id: int) returns (book: Option<Book>)
      ensures book == FindById(db, id)
    {
      if id !in db.books {
        return None;
      }
      var row := db.books[id];
      var list := new Book[1];
      list[0] := Book(id, row.title, row.author, row.year, []);
      AttachGenres(db, list);
      return Some(list[0]);
    }

    /** `FindByAuthor`: nothing for a blank fragment; otherwise the search over
        `GetAll`. */
    method FindByAuthor(author: string) returns (books: seq<Book>)
      requires Valid()
      ensures books == FindByAuthorIn(ListAll(db), author)
    {
      if IsBlank(author) {
        return [];
      }
      var all := GetAll();
      books := FindByAuthorIn(all, author);
    }

    /** `FindByTitle`: nothing for a blank fragment; otherwise the search over
        `GetAll`. */
    method FindByTitle(title: string) returns (books: seq<Book>)
      requires Valid()
      ensures books == FindByTitleIn(ListAll(db), title)
    {
      if IsBlank(title) {
        return [];
      }
      var all := GetAll();
      books := FindByTitleIn(all, title);
    }

    /** `Add`: insert the row, take its ID, replace the genres; commit on
        success, roll back on failure. */
    method Add(entity: Book) returns (result: Result<Book>)
      requires Valid()
      modifies this
      ensures Valid()
      ensures (db, result) == Added(old(db), entity)
    {
      AddedSpec(db, entity);
      var (d, id) := InsertBook(db, BookRow(entity.title, entity.author, entity.year));
      var stored := entity.(id := id);
      var replaced := ReplaceGenres(d, stored);
      if replaced.Err? {
        return Err(replaced.error);
      }
      db := replaced.value;
      return Ok(stored);
    }

    /** `Update`: false when no row has the ID; otherwise overwrite the row and
        replace the genres, committing on success and rolling back on
        failure. */
    method Update(entity: Book) returns (result: Result<bool>)
      requires Valid()
      modifies this
      ensures Valid()
      ensures (db, result) == Updated(old(db), entity)
    {
      UpdatedSpec(db, entity);
      if entity.id !in db.books {
        return Ok(false);
      }
      var d := UpdateBookRow(db, entity.id, BookRow(entity.title, entity.author, entity.year));
      var replaced := ReplaceGenres(d, entity);
      if replaced.Err? {
        return Err(replaced.error);
      }
      db := replaced.value;
      return Ok(true);
    }

    /** `Delete`: one statement outside any transaction; the cascade removes the
        book's links. */
    method Delete(id: int) returns (deleted: bool)
      requires Valid()
      modifies this
      ensures Valid()
      ensures (db, deleted) == DeleteById(old(db), id)
    {
      DeleteByIdSpec(db, id);
      if id !in db.books {
        return false;
      }
      db := DeleteBook(db, id);
      return true;
    }
  }
}
