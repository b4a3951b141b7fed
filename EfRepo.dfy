/** The Entity Framework repository. Every public operation ends in one
    `SaveChanges`, so each is one all-or-nothing step on the store. Genre names
    are normalised and resolved in memory against all genre rows, matching names
    case-insensitively: an existing genre is reused, otherwise a new one is
    created. */
module EfRepo {
  import opened Text
  import opened Seqs
  import opened GenreNames
  import opened Entities
  import opened Schema
  import opened Queries

  /** The position of the first genre at or after `i` whose name equals `name`
      ignoring case, or `|gs|` when there is none. */
  function FirstFoldFrom(gs: seq<Genre>, name: string, i: nat): (k: nat)
    requires i <= |gs|
    ensures i <= k <= |gs|
    ensures forall j :: i <= j < k ==> Fold(gs[j].name) != Fold(name)
    ensures k < |gs| ==> Fold(gs[k].name) == Fold(name)
    decreases |gs| - i
  {
    if i == |gs| || Fold(gs[i].name) == Fold(name) then i else FirstFoldFrom(gs, name, i + 1)
  }

  /** The position of the first genre whose name equals `name` ignoring case, or
      `|gs|` when there is none. */
  function FirstFoldIndex(gs: seq<Genre>, name: string): (k: nat)
    ensures k <= |gs|
    ensures forall j :: 0 <= j < k ==> Fold(gs[j].name) != Fold(name)
    ensures k < |gs| ==> Fold(gs[k].name) == Fold(name)
  {
    FirstFoldFrom(gs, name, 0)
  }

  /** `FirstOrDefault(g => string.Equals(g.Name, name, CurrentCultureIgnoreCase))`. */
  function FirstFoldMatch(gs: seq<Genre>, name: string): (r: Option<Genre>)
    ensures r.Some? ==> r.value in gs && Fold(r.value.name) == Fold(name)
    ensures r.None? <==> forall j :: 0 <= j < |gs| ==> Fold(gs[j].name) != Fold(name)
  {
    var k := FirstFoldIndex(gs, name);
    if k < |gs| then Some(gs[k]) else None
  }

  /** The first match is determined by the three properties `FirstFoldIndex`
      promises. */
  lemma FirstFoldIndexUnique(gs: seq<Genre>, name: string, k: nat)
    requires k <= |gs|
    requires forall j :: 0 <= j < k ==> Fold(gs[j].name) != Fold(name)
    requires k < |gs| ==> Fold(gs[k].name) == Fold(name)
    ensures FirstFoldIndex(gs, name) == k
  {
  }

  /** Genres appended after the list that do not match leave the first match
      where it was. */
  lemma FirstFoldMatchAppend(a: seq<Genre>, b: seq<Genre>, name: string)
    requires forall j :: 0 <= j < |b| ==> Fold(b[j].name) != Fold(name)
    ensures FirstFoldMatch(a + b, name) == FirstFoldMatch(a, name)
  {
    var k := FirstFoldIndex(a, name);
    if k < |a| {
      assert (a + b)[k] == a[k];
      assert forall j :: 0 <= j < k ==> (a + b)[j] == a[j];
      FirstFoldIndexUnique(a + b, name, k);
    } else {
      assert forall j :: 0 <= j < |a + b| ==> (a + b)[j] == if j < |a| then a[j] else b[j - |a|];
      FirstFoldIndexUnique(a + b, name, |a + b|);
    }
  }

  /** The state of the resolution loop: the store with the genres created so
      far, the in-memory genre list (`allGenres`), and the genres resolved so
      far. */
  datatype Resolution = Resolution(db: Store, all: seq<Genre>, genres: seq<Genre>)

  /** One iteration of the resolution loop: the first genre of the list whose
      name equals `name` ignoring case, or else a new genre, which gets the next
      ID and joins both the list and the store. */
  function ResolveOne(s: Resolution, name: string): Resolution {
    match FirstFoldMatch(s.all, name)
    case Some(g) => s.(genres := s.genres + [g])
    case None =>
      var g := Genre(s.db.nextGenreId, name);
      Resolution(AddGenre(s.db, name), s.all + [g], s.genres + [g])
  }

  /** The resolution loop over `names`, in order. */
  function ResolveEach(s: Resolution, names: seq<string>): Resolution
    decreases |names|
  {
    if names == [] then s
    else ResolveOne(ResolveEach(s, names[..|names| - 1]), names[|names| - 1])
  }

  /** `ResolveGenres`: the names normalised, then each resolved against the list
      of all genre rows. New genres join the store in the same save as whatever
      the caller adds. */
  function Resolve(db: Store, names: seq<string>): (Store, seq<Genre>) {
    var s := ResolveEach(Resolution(db, GenreList(db), []), Normalize(names));
    (s.db, s.genres)
  }

  /** `d` is `db0` with genre rows added under new IDs and nothing else changed. */
  ghost predicate Extends(db0: Store, d: Store) {
    && d.books == db0.books && d.links == db0.links && d.nextBookId == db0.nextBookId
    && db0.nextGenreId <= d.nextGenreId
    && (forall id :: id in db0.genres ==> id in d.genres && d.genres[id] == db0.genres[id])
    && (forall id :: id in d.genres && id !in db0.genres ==> db0.nextGenreId <= id)
  }

  /** Every genre of `gs` is a row of `d`. */
  ghost predicate AreRows(d: Store, gs: seq<Genre>) {
    forall i :: 0 <= i < |gs| ==> gs[i].id in d.genres && d.genres[gs[i].id] == gs[i].name
  }

  /** Every genre row of `d` is in `gs`. */
  ghost predicate Listed(d: Store, gs: seq<Genre>) {
    forall id :: id in d.genres ==> Genre(id, d.genres[id]) in gs
  }

  /** `g` is what `name` resolves to against the initial list `all0` of `db0`:
      the first genre matching ignoring case, or else a new row of `d` named
      `name`. */
  ghost predicate ResolvedAs(db0: Store, all0: seq<Genre>, d: Store, name: string, g: Genre) {
    match FirstFoldMatch(all0, name)
    case Some(e) => g == e
    case None => g.name == name && g.id in d.genres && d.genres[g.id] == name && db0.nextGenreId <= g.id
  }

  /** The rows `d` has beyond `db0` are named after some of `names`. */
  ghost predicate NewRowsNamed(db0: Store, d: Store, names: seq<string>) {
    forall id :: id in d.genres && id !in db0.genres ==> d.genres[id] in names
  }

  /** The list is the initial list followed by genres named after `names`. */
  ghost predicate ListGrows(all0: seq<Genre>, names: seq<string>, all: seq<Genre>) {
    && |all0| <= |all| && all[..|all0|] == all0
    && (forall k :: |all0| <= k < |all| ==> all[k].name in names)
  }

  /** What the loop keeps after resolving `names` from `db0` and its list `all0`. */
  ghost predicate ResolveInv(db0: Store, all0: seq<Genre>, names: seq<string>, s: Resolution) {
    && Valid(s.db) && Extends(db0, s.db)
    && NewRowsNamed(db0, s.db, names)
    && ListGrows(all0, names, s.all)
    && (FoldUnique(db0.genres) ==> FoldUnique(s.db.genres))
    && |s.genres| == |names|
    && (forall i :: 0 <= i < |names| ==> ResolvedAs(db0, all0, s.db, names[i], s.genres[i]))
  }

  /** A name that differs ignoring case from every name already resolved has the
      same first match in the grown list as in the initial one. */
  lemma FirstMatchKept(all0: seq<Genre>, names: seq<string>, all: seq<Genre>, n: string)
    requires ListGrows(all0, names, all)
    requires forall j :: 0 <= j < |names| ==> Fold(names[j]) != Fold(n)
    ensures FirstFoldMatch(all, n) == FirstFoldMatch(all0, n)
  {
    var tail := all[|all0|..];
    assert all == all0 + tail;
    forall j | 0 <= j < |tail| ensures Fold(tail[j].name) != Fold(n) {
      assert tail[j] == all[|all0| + j];
    }
    FirstFoldMatchAppend(all0, tail, n);
  }

  /** A name with no match in the initial list, differing ignoring case from every
      name already resolved, matches no row of the grown store, not even one
      spelled exactly like it. */
  lemma NoMatchNoRow(db0: Store, all0: seq<Genre>, names: seq<string>, d: Store, n: string)
    requires Listed(db0, all0) && FirstFoldMatch(all0, n).None?
    requires Extends(db0, d) && NewRowsNamed(db0, d, names)
    requires forall j :: 0 <= j < |names| ==> Fold(names[j]) != Fold(n)
    ensures forall id :: id in d.genres ==> Fold(d.genres[id]) != Fold(n)
    ensures !HasGenreNamed(d, n)
  {
    forall id | id in d.genres ensures Fold(d.genres[id]) != Fold(n) {
      if id in db0.genres {
        var j :| 0 <= j < |all0| && all0[j] == Genre(id, db0.genres[id]);
      } else {
        var j :| 0 <= j < |names| && names[j] == d.genres[id];
      }
    }
  }

  lemma AddGenreExtends(db0: Store, d: Store, n: string)
    requires Valid(d) && Extends(db0, d)
    ensures Extends(db0, AddGenre(d, n))
  {
  }

  lemma AddGenreNewRowsNamed(db0: Store, d: Store, names: seq<string>, n: string)
    requires NewRowsNamed(db0, d, names)
    ensures NewRowsNamed(db0, AddGenre(d, n), names + [n])
  {
  }

  lemma NewRowsNamedSnoc(db0: Store, d: Store, names: seq<string>, n: string)
    requires NewRowsNamed(db0, d, names)
    ensures NewRowsNamed(db0, d, names + [n])
  {
  }

  lemma ListGrowsSnoc(all0: seq<Genre>, names: seq<string>, all: seq<Genre>, g: Genre)
    requires ListGrows(all0, names, all)
    ensures ListGrows(all0, names + [g.name], all + [g])
    ensures ListGrows(all0, names + [g.name], all)
  {
    assert (all + [g])[..|all0|] == all[..|all0|];
    forall k | |all0| <= k < |all| + 1 ensures (all + [g])[k].name in names + [g.name] {
      if k < |all| {
        assert (all + [g])[k] == all[k];
      }
    }
  }

  lemma AddGenreKeepsFoldUnique(d: Store, n: string)
    requires Valid(d) && FoldUnique(d.genres)
    requires forall id :: id in d.genres ==> Fold(d.genres[id]) != Fold(n)
    ensures FoldUnique(AddGenre(d, n).genres)
  {
  }

  lemma AddGenreKeepsResolved(db0: Store, all0: seq<Genre>, d: Store, n: string, name: string, g: Genre)
    requires Valid(d) && ResolvedAs(db0, all0, d, name, g)
    ensures ResolvedAs(db0, all0, AddGenre(d, n), name, g)
  {
  }

  lemma AddGenreResolvesNew(db0: Store, all0: seq<Genre>, d: Store, n: string)
    requires Extends(db0, d) && FirstFoldMatch(all0, n).None?
    ensures ResolvedAs(db0, all0, AddGenre(d, n), n, Genre(d.nextGenreId, n))
  {
  }

  /** The loop step for a name with no match: a new row is created. */
  lemma ResolveStepNew(db0: Store, all0: seq<Genre>, names: seq<string>, s: Resolution, n: string)
    requires Listed(db0, all0) && ResolveInv(db0, all0, names, s)
    requires FirstFoldMatch(all0, n).None? && FirstFoldMatch(s.all, n).None?
    requires forall j :: 0 <= j < |names| ==> Fold(names[j]) != Fold(n)
    ensures ResolveInv(db0, all0, names + [n], ResolveOne(s, n))
  {
    var g := Genre(s.db.nextGenreId, n);
    var r2 := s.genres + [g];
    NoMatchNoRow(db0, all0, names, s.db, n);
    AddGenreValid(s.db, n);
    AddGenreExtends(db0, s.db, n);
    AddGenreNewRowsNamed(db0, s.db, names, n);
    ListGrowsSnoc(all0, names, s.all, g);
    if FoldUnique(db0.genres) {
      AddGenreKeepsFoldUnique(s.db, n);
    }
    forall i | 0 <= i < |names| + 1 ensures ResolvedAs(db0, all0, AddGenre(s.db, n), (names + [n])[i], r2[i]) {
      if i < |names| {
        assert (names + [n])[i] == names[i] && r2[i] == s.genres[i];
        AddGenreKeepsResolved(db0, all0, s.db, n, names[i], s.genres[i]);
      } else {
        AddGenreResolvesNew(db0, all0, s.db, n);
      }
    }
  }

  /** The loop step for a name with a match: the matching genre is reused. */
  lemma ResolveStepFound(db0: Store, all0: seq<Genre>, names: seq<string>, s: Resolution, n: string)
    requires ResolveInv(db0, all0, names, s)
    requires FirstFoldMatch(all0, n).Some? && FirstFoldMatch(s.all, n) == FirstFoldMatch(all0, n)
    ensures ResolveInv(db0, all0, names + [n], ResolveOne(s, n))
  {
    var e := FirstFoldMatch(all0, n).value;
    var r2 := s.genres + [e];
    NewRowsNamedSnoc(db0, s.db, names, n);
    ListGrowsSnoc(all0, names, s.all, Genre(0, n));
    forall i | 0 <= i < |names| + 1 ensures ResolvedAs(db0, all0, s.db, (names + [n])[i], r2[i]) {
      if i < |names| {
        assert (names + [n])[i] == names[i] && r2[i] == s.genres[i];
      }
    }
  }

  lemma {:induction false} ResolveEachInv(db0: Store, all0: seq<Genre>, names: seq<string>)
    requires Valid(db0) && Listed(db0, all0) && KeysDistinct(names, Fold)
    ensures ResolveInv(db0, all0, names, ResolveEach(Resolution(db0, all0, []), names))
    decreases |names|
  {
    if names == [] {
      assert all0[..|all0|] == all0;
    } else {
      var init := names[..|names| - 1];
      var n := names[|names| - 1];
      var s := ResolveEach(Resolution(db0, all0, []), init);
      assert init + [n] == names;
      KeysDistinctSnoc(init, n, Fold);
      ResolveEachInv(db0, all0, init);
      FirstMatchKept(all0, init, s.all, n);
      if FirstFoldMatch(all0, n).None? {
        ResolveStepNew(db0, all0, init, s, n);
      } else {
        ResolveStepFound(db0, all0, init, s, n);
      }
      assert init + [n] == names;
    }
  }

  /** One more name of the loop is one more step. */
  lemma ResolveEachPrefix(s: Resolution, names: seq<string>, i: int)
    requires 0 <= i < |names|
    ensures ResolveEach(s, names[..i + 1]) == ResolveOne(ResolveEach(s, names[..i]), names[i])
  {
    assert names[..i + 1][..i] == names[..i];
  }

  /** The genre list of a valid store is made of its rows and lists all of them. */
  lemma GenreListRows(db: Store)
    requires Valid(db)
    ensures AreRows(db, GenreList(db)) && Listed(db, GenreList(db))
  {
    GenreListSpec(db);
  }

  /** What `ResolvedAs` gives about the resolved genre on its own: its name
      matches ignoring case, and it is a row of the new store. */
  lemma ResolvedAsRow(db0: Store, all0: seq<Genre>, d: Store, name: string, g: Genre)
    requires Valid(db0) && AreRows(db0, all0) && Extends(db0, d) && ResolvedAs(db0, all0, d, name, g)
    ensures Fold(g.name) == Fold(name) && g.id in d.genres && d.genres[g.id] == g.name
    ensures FirstFoldMatch(all0, name).Some? ==> g.id in db0.genres && g.id < db0.nextGenreId
  {
    if FirstFoldMatch(all0, name).Some? {
      var j :| 0 <= j < |all0| && all0[j] == g;
    }
  }

  /** Two names that differ ignoring case never resolve to the same genre. */
  lemma ResolvedAsDistinct(db0: Store, all0: seq<Genre>, d: Store, n1: string, g1: Genre, n2: string, g2: Genre)
    requires Valid(db0) && AreRows(db0, all0) && Valid(d) && Extends(db0, d)
    requires ResolvedAs(db0, all0, d, n1, g1) && ResolvedAs(db0, all0, d, n2, g2)
    requires Fold(n1) != Fold(n2)
    ensures g1.id != g2.id
  {
    ResolvedAsRow(db0, all0, d, n1, g1);
    ResolvedAsRow(db0, all0, d, n2, g2);
  }

  /** The loop invariant, for the normalised names against the genre list. */
  lemma ResolveInvOf(db: Store, names: seq<string>)
    requires Valid(db)
    ensures AreRows(db, GenreList(db))
    ensures ResolveInv(db, GenreList(db), Normalize(names),
                       ResolveEach(Resolution(db, GenreList(db), []), Normalize(names)))
  {
    NormalizeSpec(names);
    GenreListRows(db);
    ResolveEachInv(db, GenreList(db), Normalize(names));
  }

  /** Resolution keeps the store valid, only adds genre rows, resolves to rows of
      the new store, and keeps names unique ignoring case if they were. */
  lemma ResolveValid(db: Store, names: seq<string>)
    requires Valid(db)
    ensures Valid(Resolve(db, names).0) && Extends(db, Resolve(db, names).0)
    ensures AreRows(Resolve(db, names).0, Resolve(db, names).1)
    ensures FoldUnique(db.genres) ==> FoldUnique(Resolve(db, names).0.genres)
  {
    var all0 := GenreList(db);
    var n := Normalize(names);
    var s := ResolveEach(Resolution(db, all0, []), n);
    ResolveInvOf(db, names);
    forall i | 0 <= i < |s.genres| ensures s.genres[i].id in s.db.genres && s.db.genres[s.genres[i].id] == s.genres[i].name {
      ResolvedAsRow(db, all0, s.db, n[i], s.genres[i]);
    }
  }

  /** `ResolveGenres` yields one genre per normalised name, in order: the first
      existing genre whose name matches ignoring case, or else a new genre under
      a fresh ID named exactly as the normalised name. Resolved names match
      ignoring case, no two results share an ID, and with no surviving name
      nothing changes. */
  lemma ResolveSpec(db: Store, names: seq<string>)
    requires Valid(db)
    ensures |Resolve(db, names).1| == |Normalize(names)|
    ensures forall i :: 0 <= i < |Normalize(names)| ==>
      ResolvedAs(db, GenreList(db), Resolve(db, names).0, Normalize(names)[i], Resolve(db, names).1[i])
    ensures forall i :: 0 <= i < |Normalize(names)| ==>
      Fold(Resolve(db, names).1[i].name) == Fold(Normalize(names)[i])
    ensures forall i, j :: 0 <= i < j < |Resolve(db, names).1| ==>
      Resolve(db, names).1[i].id != Resolve(db, names).1[j].id
    ensures Normalize(names) == [] ==> Resolve(db, names) == (db, [])
  {
    var all0 := GenreList(db);
    var n := Normalize(names);
    var s := ResolveEach(Resolution(db, all0, []), n);
    NormalizeSpec(names);
    ResolveInvOf(db, names);
    forall i | 0 <= i < |n| ensures Fold(s.genres[i].name) == Fold(n[i]) {
      ResolvedAsRow(db, all0, s.db, n[i], s.genres[i]);
    }
    forall i, j | 0 <= i < j < |s.genres| ensures s.genres[i].id != s.genres[j].id {
      ResolvedAsDistinct(db, all0, s.db, n[i], s.genres[i], n[j], s.genres[j]);
    }
  }

  /** With stored names unique ignoring case, a name resolves to the one stored
      row matching it, or to a new row when none matches; which row the scan meets
      first no longer matters. */
  lemma ResolvedAsUnique(db0: Store, all0: seq<Genre>, d: Store, name: string, g: Genre)
    requires Valid(db0) && FoldUnique(db0.genres) && AreRows(db0, all0) && Listed(db0, all0)
    requires Extends(db0, d) && ResolvedAs(db0, all0, d, name, g)
    ensures forall id :: id in db0.genres && Fold(db0.genres[id]) == Fold(name) ==> g == Genre(id, db0.genres[id])
    ensures (forall id :: id in db0.genres ==> Fold(db0.genres[id]) != Fold(name)) ==>
      g.name == name && g.id !in db0.genres
  {
    ResolvedAsRow(db0, all0, d, name, g);
    if FirstFoldMatch(all0, name).Some? {
      forall id | id in db0.genres && Fold(db0.genres[id]) == Fold(name) ensures g == Genre(id, db0.genres[id]) {
        assert Fold(db0.genres[g.id]) == Fold(db0.genres[id]);
      }
    } else {
      forall id | id in db0.genres ensures Fold(db0.genres[id]) != Fold(name) {
        assert Genre(id, db0.genres[id]) in all0;
      }
    }
  }

  /** Where names are unique ignoring case, as this repository keeps them, the
      resolution does not depend on the order of the genre scan: each name reuses
      the only stored row equal to it ignoring case, and gets a new row named as
      itself when there is none. */
  lemma ResolveScanIndependent(db: Store, names: seq<string>)
    requires Valid(db) && FoldUnique(db.genres)
    ensures var n, r := Normalize(names), Resolve(db, names).1;
      && |r| == |n|
      && (forall i, id :: 0 <= i < |n| && id in db.genres && Fold(db.genres[id]) == Fold(n[i]) ==>
            r[i] == Genre(id, db.genres[id]))
      && (forall i :: 0 <= i < |n| && (forall id :: id in db.genres ==> Fold(db.genres[id]) != Fold(n[i])) ==>
            r[i].name == n[i] && r[i].id !in db.genres)
  {
    ResolveSpec(db, names);
    ResolveValid(db, names);
    GenreListSpec(db);
    var n := Normalize(names);
    var (d, r) := Resolve(db, names);
    forall i | 0 <= i < |n|
      ensures forall id :: id in db.genres && Fold(db.genres[id]) == Fold(n[i]) ==> r[i] == Genre(id, db.genres[id])
      ensures (forall id :: id in db.genres ==> Fold(db.genres[id]) != Fold(n[i])) ==> r[i].name == n[i] && r[i].id !in db.genres
    {
      ResolvedAsUnique(db, GenreList(db), d, n[i], r[i]);
    }
  }

  /** The links from a book to each of the given genres. */
  function LinkSet(bookId: int, gs: seq<Genre>): set<Link> {
    set i | 0 <= i < |gs| :: Link(bookId, gs[i].id)
  }

  /** The store with the book linked to each of the genres. */
  function Linked(d: Store, bookId: int, gs: seq<Genre>): Store {
    d.(links := d.links + LinkSet(bookId, gs))
  }

  /** Every link of `LinkSet` names the book and one of the genres. */
  lemma LinkSetSpec(bookId: int, gs: seq<Genre>)
    ensures forall l :: l in LinkSet(bookId, gs) <==> l.bookId == bookId && exists i :: 0 <= i < |gs| && gs[i].id == l.genreId
  {
    forall l: Link | l.bookId == bookId && exists i :: 0 <= i < |gs| && gs[i].id == l.genreId
      ensures l in LinkSet(bookId, gs)
    {
      var i :| 0 <= i < |gs| && gs[i].id == l.genreId;
      assert l == Link(bookId, gs[i].id);
    }
  }

  /** Linking a stored book to stored genres keeps the store valid, adds exactly
      those links to the book and touches no other book's links. */
  lemma LinkedSpec(d: Store, bookId: int, gs: seq<Genre>)
    requires Valid(d) && bookId in d.books && AreRows(d, gs)
    ensures Valid(Linked(d, bookId, gs))
    ensures LinksOf(Linked(d, bookId, gs), bookId) == LinksOf(d, bookId) + LinkSet(bookId, gs)
    ensures forall l: Link :: l.bookId != bookId ==> (l in Linked(d, bookId, gs).links <==> l in d.links)
  {
    LinkSetSpec(bookId, gs);
  }

  /** `Add`: the genres resolved, then the book row, the new genres and the links
      saved together; the returned book carries the generated ID and the
      resolved genres. */
  function Added(db: Store, b: Book): (Store, Book) {
    var r := Resolve(db, NamesOf(b.genres));
    var (d, id) := InsertBook(r.0, BookRow(b.title, b.author, b.year));
    (Linked(d, id, r.1), b.(id := id, genres := r.1))
  }

  /** The store an update starts from: the row overwritten and the book's links
      cleared. */
  function Cleared(db: Store, b: Book): Store
    requires b.id in db.books
  {
    DeleteLinksOf(UpdateBookRow(db, b.id, BookRow(b.title, b.author, b.year)), b.id)
  }

  /** `Update`: false with nothing changed for an absent ID; otherwise the row
      overwritten, the book's links replaced by links to the resolved genres, and
      true. */
  function Updated(db: Store, b: Book): (Store, bool) {
    if b.id !in db.books then (db, false)
    else
      var r := Resolve(Cleared(db, b), NamesOf(b.genres));
      (Linked(r.0, b.id, r.1), true)
  }

  /** `Add` keeps the store valid, stores the row under the next book ID, links
      the book to exactly the resolved genres, and leaves every other book and its
      links alone; it cannot fail, because a genre is only created for a name no
      stored genre matches even ignoring case. */
  lemma AddedSpec(db: Store, b: Book)
    requires Valid(db)
    ensures Valid(Added(db, b).0)
    ensures Added(db, b).1.id == db.nextBookId && db.nextBookId !in db.books
    ensures Added(db, b).1 == b.(id := db.nextBookId, genres := Resolve(db, NamesOf(b.genres)).1)
    ensures Added(db, b).0.books == db.books[db.nextBookId := BookRow(b.title, b.author, b.year)]
    ensures Added(db, b).0.nextBookId == db.nextBookId + 1
    ensures LinksOf(Added(db, b).0, db.nextBookId) == LinkSet(db.nextBookId, Resolve(db, NamesOf(b.genres)).1)
    ensures forall l: Link :: l.bookId != db.nextBookId ==> (l in Added(db, b).0.links <==> l in db.links)
    ensures forall id :: id in db.genres ==> id in Added(db, b).0.genres && Added(db, b).0.genres[id] == db.genres[id]
    ensures FoldUnique(db.genres) ==> FoldUnique(Added(db, b).0.genres)
  {
    var r := Resolve(db, NamesOf(b.genres));
    var row := BookRow(b.title, b.author, b.year);
    ResolveValid(db, NamesOf(b.genres));
    InsertBookValid(r.0, row);
    var (d, id) := InsertBook(r.0, row);
    LinkedSpec(d, id, r.1);
  }

  /** `Update` on an absent ID returns false and changes nothing; on a present ID
      it overwrites title, author and year, links the book to exactly the resolved
      genres, keeps every other book's links and every genre row, and returns
      true. */
  lemma UpdatedSpec(db: Store, b: Book)
    requires Valid(db)
    ensures b.id !in db.books ==> Updated(db, b) == (db, false)
    ensures b.id in db.books ==>
      && Updated(db, b).1 && Valid(Updated(db, b).0)
      && Updated(db, b).0.books == db.books[b.id := BookRow(b.title, b.author, b.year)]
      && LinksOf(Updated(db, b).0, b.id) == LinkSet(b.id, Resolve(Cleared(db, b), NamesOf(b.genres)).1)
      && (forall l: Link :: l.bookId != b.id ==> (l in Updated(db, b).0.links <==> l in db.links))
      && (forall id :: id in db.genres ==> id in Updated(db, b).0.genres && Updated(db, b).0.genres[id] == db.genres[id])
  {
    if b.id in db.books {
      var d0 := Cleared(db, b);
      DeleteLinksOfSpec(UpdateBookRow(db, b.id, BookRow(b.title, b.author, b.year)), b.id);
      ResolveValid(d0, NamesOf(b.genres));
      var r := Resolve(d0, NamesOf(b.genres));
      LinkedSpec(r.0, b.id, r.1);
    }
  }

  /** In a store whose genre names are unique ignoring case, a book updated with
      a name that matches one of its current genres ignoring case stays linked to
      that same genre. */
  lemma UpdateKeepsMatchingGenre(db: Store, b: Book, g: int, i: int)
    requires Valid(db) && FoldUnique(db.genres) && b.id in db.books
    requires Link(b.id, g) in db.links
    requires 0 <= i < |b.genres| && !IsBlank(b.genres[i].name)
    requires Fold(Trim(b.genres[i].name)) == Fold(db.genres[g])
    ensures Link(b.id, g) in Updated(db, b).0.links
  {
    var names := NamesOf(b.genres);
    var d0 := Cleared(db, b);
    DeleteLinksOfSpec(UpdateBookRow(db, b.id, BookRow(b.title, b.author, b.year)), b.id);
    assert d0.genres == db.genres;
    var all0 := GenreList(d0);
    NormalizeSpec(names);
    ResolveInvOf(d0, names);
    ResolveValid(d0, names);
    var n := Normalize(names);
    var r := Resolve(d0, names);
    assert names[i] == b.genres[i].name;
    var j :| 0 <= j < |n| && Fold(n[j]) == Fold(Trim(names[i]));
    GenreListSpec(d0);
    var e := FirstFoldMatch(all0, n[j]);
    assert Genre(g, d0.genres[g]) in all0;
    assert e.Some?;
    ResolvedAsRow(d0, all0, r.0, n[j], r.1[j]);
    assert r.1[j].id == g;
    LinkSetSpec(b.id, r.1);
  }

  /** A stored book with its genres, as loaded with `Include(b => b.Genres)`;
      the genres come in ascending ID order. */
  function BookAt(db: Store, id: int): Book
    requires id in db.books
  {
    Book(id, db.books[id].title, db.books[id].author, db.books[id].year, LinkedGenres(db, id))
  }

  /** `GetAll`: every book, ordered by ID. */
  function GetAll(db: Store): seq<Book>
    requires Valid(db)
  {
    BookIdsSpec(db);
    var ids := BookIds(db);
    seq(|ids|, i requires 0 <= i < |ids| => BookAt(db, ids[i]))
  }

  /** `GetById`: the book with that ID, if any. */
  function GetById(db: Store, id: int): Option<Book> {
    if id in db.books then Some(BookAt(db, id)) else None
  }

  /** `FindByAuthor`. */
  function FindByAuthor(db: Store, author: string): seq<Book>
    requires Valid(db)
  {
    FindByAuthorIn(GetAll(db), author)
  }

  /** `FindByTitle`. */
  function FindByTitle(db: Store, title: string): seq<Book>
    requires Valid(db)
  {
    FindByTitleIn(GetAll(db), title)
  }

  /** `GetAllGenres`: the stored names normalised, then ordered ignoring case. */
  function GetAllGenres(db: Store): seq<string> {
    SortBy(Normalize(NamesOf(GenreList(db))), FoldLe)
  }

  /** `GetAll` lists each stored book once, ascending by ID, with its row. */
  lemma GetAllSpec(db: Store)
    requires Valid(db)
    ensures forall i :: 0 <= i < |GetAll(db)| ==>
      GetAll(db)[i].id in db.books && GetAll(db)[i] == BookAt(db, GetAll(db)[i].id)
    ensures forall id :: id in db.books ==> BookAt(db, id) in GetAll(db)
    ensures forall i, j :: 0 <= i < j < |GetAll(db)| ==> GetAll(db)[i].id < GetAll(db)[j].id
  {
    BookIdsSpec(db);
    var ids := BookIds(db);
    forall id | id in db.books ensures BookAt(db, id) in GetAll(db) {
      var i :| 0 <= i < |ids| && ids[i] == id;
      assert GetAll(db)[i] == BookAt(db, id);
    }
  }

  /** `GetAllGenres` yields trimmed non-blank names, pairwise different ignoring
      case, ordered ignoring case, with one spelling for the fold of every
      non-blank stored name. */
  lemma GetAllGenresSpec(db: Store)
    requires Valid(db)
    ensures var r := GetAllGenres(db);
      && AllClean(r) && KeysDistinct(r, Fold) && SortedBy(r, FoldLe)
      && (forall id :: id in db.genres && !IsBlank(db.genres[id]) ==> HasKey(r, Fold, Fold(Trim(db.genres[id]))))
  {
    var names := NamesOf(GenreList(db));
    SortNormalizedSpec(names);
    GenreListSpec(db);
    forall id | id in db.genres && !IsBlank(db.genres[id])
      ensures HasKey(GetAllGenres(db), Fold, Fold(Trim(db.genres[id])))
    {
      var k :| 0 <= k < |GenreList(db)| && GenreList(db)[k] == Genre(id, db.genres[id]);
      assert names[k] == db.genres[id];
    }
  }

  /** A book without links, linked to stored genres, reads back with exactly
      those genres. */
  lemma ReadBackLinked(d: Store, bookId: int, gs: seq<Genre>)
    requires Valid(d) && bookId in d.books && AreRows(d, gs) && LinksOf(d, bookId) == {}
    ensures forall g :: g in LinkedGenres(Linked(d, bookId, gs), bookId) <==> g in gs
  {
    var d2 := Linked(d, bookId, gs);
    LinkedSpec(d, bookId, gs);
    LinkedGenresSpec(d2, bookId);
    LinkSetSpec(bookId, gs);
    forall g | g in gs ensures g in LinkedGenres(d2, bookId) {
      var i :| 0 <= i < |gs| && gs[i] == g;
      assert Link(bookId, g.id) in LinksOf(d2, bookId);
    }
    forall g | g in LinkedGenres(d2, bookId) ensures g in gs {
      var k :| 0 <= k < |LinkedGenres(d2, bookId)| && LinkedGenres(d2, bookId)[k] == g;
      assert Link(bookId, g.id) in LinksOf(d2, bookId);
      var i :| 0 <= i < |gs| && gs[i].id == g.id;
    }
  }

  /** Reading a book back after `Add` gives its title, author, year and exactly
      the genres `Add` returned (the read lists them by ID). */
  lemma AddedThenGetById(db: Store, b: Book)
    requires Valid(db)
    ensures GetById(Added(db, b).0, Added(db, b).1.id).Some?
    ensures GetById(Added(db, b).0, Added(db, b).1.id).value
         == BookAt(Added(db, b).0, Added(db, b).1.id)
    ensures var a := GetById(Added(db, b).0, Added(db, b).1.id).value;
      && a.title == b.title && a.author == b.author && a.year == b.year
      && (forall g :: g in a.genres <==> g in Added(db, b).1.genres)
  {
    var r := Resolve(db, NamesOf(b.genres));
    var row := BookRow(b.title, b.author, b.year);
    ResolveValid(db, NamesOf(b.genres));
    InsertBookValid(r.0, row);
    var (d, id) := InsertBook(r.0, row);
    ReadBackLinked(d, id, r.1);
  }

  /** Reading a book back after a successful `Update` gives the new title, author
      and year and exactly the resolved genres. */
  lemma UpdatedThenGetById(db: Store, b: Book)
    requires Valid(db) && b.id in db.books
    ensures GetById(Updated(db, b).0, b.id).Some?
    ensures var a := GetById(Updated(db, b).0, b.id).value;
      && a.title == b.title && a.author == b.author && a.year == b.year
      && (forall g :: g in a.genres <==> g in Resolve(Cleared(db, b), NamesOf(b.genres)).1)
  {
    var d0 := Cleared(db, b);
    DeleteLinksOfSpec(UpdateBookRow(db, b.id, BookRow(b.title, b.author, b.year)), b.id);
    ResolveValid(d0, NamesOf(b.genres));
    var r := Resolve(d0, NamesOf(b.genres));
    assert LinksOf(r.0, b.id) == LinksOf(d0, b.id);
    ReadBackLinked(r.0, b.id, r.1);
  }

  /** The repository over a tracked context. */
  class EfBookRepository {
    var db: Store

    ghost predicate Valid()
      reads this
    {
      Schema.Valid(db)
    }

    constructor(store: Store)
      requires Schema.Valid(store)
      ensures Valid() && db == store
    {
      db := store;
    }

    /** `ResolveGenres`: the loop over the normalised names with the in-memory
        genre list `allGenres`, which gains every genre it creates. */
    method ResolveGenres(names: seq<string>) returns (result: seq<Genre>)
      requires Valid()
      modifies this
      ensures Valid()
      ensures (db, result) == Resolve(old(db), names)
    {
      var normalized := Normalize(names);
      if normalized == [] {
        return [];
      }
      ghost var db0 := db;
      var d := db;
      var allGenres := GenreList(d);
      ghost var start := Resolution(d, allGenres, []);
      result := [];
      var i := 0;
      while i < |normalized|
        invariant 0 <= i <= |normalized|
        invariant ResolveEach(start, normalized[..i]) == Resolution(d, allGenres, result)
      {
        var name := normalized[i];
        ResolveEachPrefix(start, normalized, i);
        var genre: Genre;
        var found := FirstFoldMatch(allGenres, name);
        if found.Some? {
          genre := found.value;
        } else {
          genre := Genre(d.nextGenreId, name);
          allGenres := allGenres + [genre];
          d := AddGenre(d, name);
        }
        result := result + [genre];
        i := i + 1;
      }
      assert normalized[..i] == normalized;
      ResolveValid(db0, names);
      db := d;
    }

    /** `UpdateGenres`: the book's genre collection cleared and refilled with the
        resolved genres. */
    method UpdateGenres(targetId: int, source: Book)
      requires Valid() && targetId in db.books
      modifies this
      ensures Valid()
      ensures db == Linked(Resolve(DeleteLinksOf(old(db), targetId), NamesOf(source.genres)).0,
                           targetId, Resolve(DeleteLinksOf(old(db), targetId), NamesOf(source.genres)).1)
    {
      DeleteLinksOfSpec(db, targetId);
      db := DeleteLinksOf(db, targetId);
      ghost var cleared := db;
      var genres := ResolveGenres(NamesOf(source.genres));
      ResolveValid(cleared, NamesOf(source.genres));
      LinkedSpec(db, targetId, genres);
      db := Linked(db, targetId, genres);
    }

    /** `Add`: the entity gets the resolved genres and the generated ID. */
    method Add(entity: Book) returns (added: Book)
      requires Valid()
      modifies this
      ensures Valid()
      ensures (db, added) == Added(old(db), entity)
    {
      AddedSpec(db, entity);
      var genres := ResolveGenres(NamesOf(entity.genres));
      var (d, id) := InsertBook(db, BookRow(entity.title, entity.author, entity.year));
      db := Linked(d, id, genres);
      added := entity.(id := id, genres := genres);
    }

    /** `Update`: false for an absent ID; otherwise the tracked row overwritten,
        its genres replaced, and true. */
    method Update(entity: Book) returns (updated: bool)
      requires Valid()
      modifies this
      ensures Valid()
      ensures (db, updated) == Updated(old(db), entity)
    {
      if entity.id !in db.books {
        return false;
      }
      db := UpdateBookRow(db, entity.id, BookRow(entity.title, entity.author, entity.year));
      UpdateGenres(entity.id, entity);
      return true;
    }

    /** `Delete`: false for an absent ID; otherwise the row removed, with its
        links by the cascade, and true. */
    method Delete(id: int) returns (deleted: bool)
      requires Valid()
      modifies this
      ensures Valid()
      ensures (db, deleted) == DeleteById(old(db), id)
    {
      if id !in db.books {
        return false;
      }
      DeleteBookSpec(db, id);
      db := DeleteBook(db, id);
      return true;
    }
  }
}
