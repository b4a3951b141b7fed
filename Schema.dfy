/** The relational store both repositories work on, as `BookDbContext` declares
    it: the tables Books, Genres and BookGenres, their keys, the unique index on
    Genres.Name, the cascading foreign keys of the link table, and the
    store-generated IDs. Every step below is one statement on the store. */
module Schema {
  import opened Text
  import opened Seqs
  import opened Entities

  /** A row of Books without its key. */
  datatype BookRow = BookRow(title: string, author: string, year: int)

  /** A row of BookGenres; the pair is the table's composite key. */
  datatype Link = Link(bookId: int, genreId: int)

  /** The store: rows keyed by ID, the link set, and the next ID each AUTOINCREMENT
      key hands out. */
  datatype Store = Store(
    books: map<int, BookRow>,
    genres: map<int, string>,
    links: set<Link>,
    nextBookId: int,
    nextGenreId: int)

  datatype Option<T> = None | Some(value: T)

  /** The constraint a statement violated, or (`DuplicateKey`) the key an
      in-memory dictionary was given twice. */
  datatype StoreError =
    | UniqueNameViolation(name: string)
    | DuplicateLink(link: Link)
    | MissingReference(link: Link)
    | DuplicateKey(key: string)

  datatype Result<T> = Ok(value: T) | Err(error: StoreError)

  const TitleMaxLength := 256
  const AuthorMaxLength := 128
  const GenreNameMaxLength := 128

  /** An empty store with fresh counters. */
  function EmptyStore(): Store {
    Store(map[], map[], {}, 1, 1)
  }

  /** No two genre rows share a name (the unique index, with the default binary
      collation, compares names exactly). */
  ghost predicate NamesUnique(genres: map<int, string>) {
    forall a, b :: a in genres && b in genres && genres[a] == genres[b] ==> a == b
  }

  /** No two genre rows have names equal ignoring case. The store does not
      enforce this; only the case-insensitive resolution keeps it. */
  ghost predicate FoldUnique(genres: map<int, string>) {
    forall a, b :: a in genres && b in genres && Fold(genres[a]) == Fold(genres[b]) ==> a == b
  }

  /** What the store enforces: keys below their counters, unique genre names, and
      every link referring to an existing book and genre. */
  ghost predicate Valid(db: Store) {
    && 1 <= db.nextBookId && 1 <= db.nextGenreId
    && (forall id :: id in db.books ==> 1 <= id < db.nextBookId)
    && (forall id :: id in db.genres ==> 1 <= id < db.nextGenreId)
    && NamesUnique(db.genres)
    && (forall l :: l in db.links ==> l.bookId in db.books && l.genreId in db.genres)
  }

  /** The declared maximum lengths. They are part of the schema but SQLite does not
      enforce them and no operation checks them. */
  ghost predicate WithinDeclaredLengths(db: Store) {
    && (forall id :: id in db.books ==>
          |db.books[id].title| <= TitleMaxLength && |db.books[id].author| <= AuthorMaxLength)
    && (forall id :: id in db.genres ==> |db.genres[id]| <= GenreNameMaxLength)
  }

  lemma EmptyStoreValid()
    ensures Valid(EmptyStore()) && WithinDeclaredLengths(EmptyStore())
  {
  }

  /** The genre rows whose name is exactly `name`. */
  predicate HasGenreNamed(db: Store, name: string) {
    exists id :: id in db.genres && db.genres[id] == name
  }

  /** INSERT INTO Books: the row gets the next book ID. */
  function InsertBook(db: Store, row: BookRow): (r: (Store, int))
    ensures r.1 == db.nextBookId && r.0.books == db.books[r.1 := row]
    ensures r.0.genres == db.genres && r.0.links == db.links
    ensures r.0.nextBookId == db.nextBookId + 1 && r.0.nextGenreId == db.nextGenreId
  {
    (db.(books := db.books[db.nextBookId := row], nextBookId := db.nextBookId + 1), db.nextBookId)
  }

  /** INSERT INTO Genres: the row gets the next genre ID, and a name already
      stored violates the unique index. */
  function InsertGenre(db: Store, name: string): (r: Result<(Store, int)>)
    ensures r.Err? <==> HasGenreNamed(db, name)
    ensures r.Err? ==> r.error == UniqueNameViolation(name)
    ensures r.Ok? ==> r.value.1 == db.nextGenreId && r.value.0 == AddGenre(db, name)
  {
    if HasGenreNamed(db, name) then Err(UniqueNameViolation(name))
    else Ok((AddGenre(db, name), db.nextGenreId))
  }

  /** The store after a genre row `name` was given the next genre ID. */
  function AddGenre(db: Store, name: string): Store {
    db.(genres := db.genres[db.nextGenreId := name], nextGenreId := db.nextGenreId + 1)
  }

  /** `INSERT ... ON CONFLICT(Name) DO NOTHING`: inserts only a name not stored.
      SQLite draws the new AUTOINCREMENT rowid before it meets the conflict, so an
      ignored insert still uses up a genre ID. */
  function InsertGenreOrIgnore(db: Store, name: string): Store {
    if HasGenreNamed(db, name) then db.(nextGenreId := db.nextGenreId + 1) else AddGenre(db, name)
  }

  /** INSERT INTO BookGenres: the composite key rejects a pair already present
      and the foreign keys reject a missing book or genre. */
  function InsertLink(db: Store, l: Link): (r: Result<Store>)
    ensures r.Ok? <==> l !in db.links && l.bookId in db.books && l.genreId in db.genres
    ensures r.Ok? ==> r.value == db.(links := db.links + {l})
    ensures r.Err? && l in db.links ==> r.error == DuplicateLink(l)
  {
    if l in db.links then Err(DuplicateLink(l))
    else if l.bookId !in db.books || l.genreId !in db.genres then Err(MissingReference(l))
    else Ok(db.(links := db.links + {l}))
  }

  /** The links of one book. */
  function LinksOf(db: Store, bookId: int): set<Link> {
    set l | l in db.links && l.bookId == bookId
  }

  /** DELETE FROM BookGenres WHERE BookId = id. */
  function DeleteLinksOf(db: Store, bookId: int): Store {
    db.(links := db.links - LinksOf(db, bookId))
  }

  /** DELETE FROM Books WHERE ID = id, with the cascade to its links. */
  function DeleteBook(db: Store, id: int): Store {
    db.(books := db.books - {id}, links := set l | l in db.links && l.bookId != id)
  }

  /** Deleting a book by ID and reporting whether a row went: false with nothing
      changed for an absent ID, otherwise the row removed with its links. */
  function DeleteById(db: Store, id: int): (Store, bool) {
    if id in db.books then (DeleteBook(db, id), true) else (db, false)
  }

  /** DELETE FROM Genres WHERE ID = id, with the cascade to its links. */
  function DeleteGenre(db: Store, id: int): Store {
    db.(genres := db.genres - {id}, links := set l | l in db.links && l.genreId != id)
  }

  /** UPDATE Books SET ... WHERE ID = id. */
  function UpdateBookRow(db: Store, id: int, row: BookRow): Store
    requires id in db.books
  {
    db.(books := db.books[id := row])
  }

  /** Inserting a book keeps the store valid and hands out an ID no row had. */
  lemma InsertBookValid(db: Store, row: BookRow)
    requires Valid(db)
    ensures Valid(InsertBook(db, row).0)
    ensures InsertBook(db, row).1 !in db.books && InsertBook(db, row).1 >= 1
    ensures LinksOf(InsertBook(db, row).0, InsertBook(db, row).1) == {}
  {
  }

  /** A successful genre insert keeps the store valid; the unique index is what
      keeps names unique. */
  lemma InsertGenreValid(db: Store, name: string)
    requires Valid(db) && InsertGenre(db, name).Ok?
    ensures Valid(InsertGenre(db, name).value.0)
    ensures InsertGenre(db, name).value.1 !in db.genres
  {
    AddGenreValid(db, name);
  }

  lemma AddGenreValid(db: Store, name: string)
    requires Valid(db) && !HasGenreNamed(db, name)
    ensures Valid(AddGenre(db, name))
    ensures db.nextGenreId !in db.genres
  {
  }

  /** Insert-or-ignore keeps the store valid and leaves exactly one row named
      `name`, the old one when there was one, and uses up one genre ID either way. */
  lemma InsertGenreOrIgnoreSpec(db: Store, name: string)
    requires Valid(db)
    ensures Valid(InsertGenreOrIgnore(db, name))
    ensures HasGenreNamed(InsertGenreOrIgnore(db, name), name)
    ensures HasGenreNamed(db, name) ==> InsertGenreOrIgnore(db, name) == db.(nextGenreId := db.nextGenreId + 1)
    ensures !HasGenreNamed(db, name) ==> InsertGenreOrIgnore(db, name) == AddGenre(db, name)
    ensures InsertGenreOrIgnore(db, name).nextGenreId == db.nextGenreId + 1
    ensures forall id :: id in db.genres ==>
      id in InsertGenreOrIgnore(db, name).genres && InsertGenreOrIgnore(db, name).genres[id] == db.genres[id]
  {
    if !HasGenreNamed(db, name) {
      AddGenreValid(db, name);
      assert AddGenre(db, name).genres[db.nextGenreId] == name;
    }
  }

  /** A successful link insert keeps the store valid and adds exactly one link. */
  lemma InsertLinkValid(db: Store, l: Link)
    requires Valid(db) && InsertLink(db, l).Ok?
    ensures Valid(InsertLink(db, l).value)
    ensures InsertLink(db, l).value.links == db.links + {l} && l !in db.links
    ensures |InsertLink(db, l).value.links| == |db.links| + 1
  {
  }

  /** Deleting a book removes exactly its links, keeps every genre row, and keeps
      the store valid: without the cascade its links would dangle. */
  lemma DeleteBookSpec(db: Store, id: int)
    requires Valid(db)
    ensures Valid(DeleteBook(db, id))
    ensures DeleteBook(db, id).genres == db.genres
    ensures DeleteBook(db, id).links == db.links - LinksOf(db, id)
    ensures id !in DeleteBook(db, id).books
    ensures forall k :: k in db.books && k != id ==> k in DeleteBook(db, id).books
  {
  }

  /** Deleting by ID reports whether the book existed; it removes exactly the
      book and its links and keeps every genre row. */
  lemma DeleteByIdSpec(db: Store, id: int)
    requires Valid(db)
    ensures var (d, ok) := DeleteById(db, id);
      && Valid(d) && (ok <==> id in db.books)
      && id !in d.books && d.genres == db.genres
      && (forall k :: k != id ==> (k in d.books <==> k in db.books))
      && d.links == db.links - LinksOf(db, id)
      && (!ok ==> d == db)
  {
    DeleteBookSpec(db, id);
  }

  /** Deleting a genre removes exactly its links and keeps every book row. */
  lemma DeleteGenreSpec(db: Store, id: int)
    requires Valid(db)
    ensures Valid(DeleteGenre(db, id))
    ensures DeleteGenre(db, id).books == db.books
    ensures DeleteGenre(db, id).links == db.links - set l | l in db.links && l.genreId == id
  {
  }

  /** Deleting a book's links leaves it with none and touches no other book. */
  lemma DeleteLinksOfSpec(db: Store, bookId: int)
    requires Valid(db)
    ensures Valid(DeleteLinksOf(db, bookId))
    ensures LinksOf(DeleteLinksOf(db, bookId), bookId) == {}
    ensures forall l :: l in db.links && l.bookId != bookId ==> l in DeleteLinksOf(db, bookId).links
  {
  }

  /** The members of `keys` in [lo, hi), ascending: a scan in key order. */
  function AscendingKeys(keys: set<int>, lo: int, hi: int): (r: seq<int>)
    ensures forall i :: 0 <= i < |r| ==> r[i] in keys && lo <= r[i] < hi
    ensures forall k :: k in keys && lo <= k < hi ==> k in r
    ensures forall i, j :: 0 <= i < j < |r| ==> r[i] < r[j]
    decreases hi - lo
  {
    if hi <= lo then [] else AscendingKeys(keys, lo, hi - 1) + if hi - 1 in keys then [hi - 1] else []
  }

  /** The genres of the store in ascending ID order (a plain table scan). */
  function GenreList(db: Store): seq<Genre> {
    var ids := AscendingKeys(db.genres.Keys, 1, db.nextGenreId);
    seq(|ids|, i requires 0 <= i < |ids| => Genre(ids[i], db.genres[ids[i]]))
  }

  /** Under `Valid` the scan lists every genre row once, ascending by ID. */
  lemma GenreListSpec(db: Store)
    requires Valid(db)
    ensures forall i :: 0 <= i < |GenreList(db)| ==>
      GenreList(db)[i].id in db.genres && GenreList(db)[i].name == db.genres[GenreList(db)[i].id]
    ensures forall id :: id in db.genres ==> Genre(id, db.genres[id]) in GenreList(db)
    ensures forall i, j :: 0 <= i < j < |GenreList(db)| ==> GenreList(db)[i].id < GenreList(db)[j].id
  {
    var ids := AscendingKeys(db.genres.Keys, 1, db.nextGenreId);
    forall id | id in db.genres ensures Genre(id, db.genres[id]) in GenreList(db) {
      var i :| 0 <= i < |ids| && ids[i] == id;
      assert GenreList(db)[i] == Genre(id, db.genres[id]);
    }
  }

  /** The IDs of the genres linked to a book, ascending (the rows an INNER JOIN of
      BookGenres and Genres yields for it). */
  function LinkedGenreIds(db: Store, bookId: int): seq<int> {
    AscendingKeys(set l | l in db.links && l.bookId == bookId && l.genreId in db.genres :: l.genreId,
                  1, db.nextGenreId)
  }

  /** The genres linked to a book, ascending by genre ID. */
  function LinkedGenres(db: Store, bookId: int): (r: seq<Genre>)
    ensures |r| == |LinkedGenreIds(db, bookId)|
  {
    var ids := LinkedGenreIds(db, bookId);
    seq(|ids|, i requires 0 <= i < |ids| => Genre(ids[i], db.genres[ids[i]]))
  }

  /** Under `Valid` a book's linked genres are exactly the genres its links name,
      each once. */
  lemma LinkedGenresSpec(db: Store, bookId: int)
    requires Valid(db)
    ensures forall i :: 0 <= i < |LinkedGenres(db, bookId)| ==>
      var g := LinkedGenres(db, bookId)[i];
      Link(bookId, g.id) in db.links && g.id in db.genres && g.name == db.genres[g.id]
    ensures forall l :: l in db.links && l.bookId == bookId ==>
      Genre(l.genreId, db.genres[l.genreId]) in LinkedGenres(db, bookId)
    ensures forall i, j :: 0 <= i < j < |LinkedGenres(db, bookId)| ==>
      LinkedGenres(db, bookId)[i].id < LinkedGenres(db, bookId)[j].id
  {
    var ids := LinkedGenreIds(db, bookId);
    var s := set l | l in db.links && l.bookId == bookId && l.genreId in db.genres :: l.genreId;
    forall l | l in db.links && l.bookId == bookId
      ensures Genre(l.genreId, db.genres[l.genreId]) in LinkedGenres(db, bookId)
    {
      assert l.genreId in s;
      var i :| 0 <= i < |ids| && ids[i] == l.genreId;
      assert LinkedGenres(db, bookId)[i] == Genre(l.genreId, db.genres[l.genreId]);
    }
  }

  /** The book IDs of the store, ascending (ORDER BY ID). */
  function BookIds(db: Store): seq<int> {
    AscendingKeys(db.books.Keys, 1, db.nextBookId)
  }

  lemma BookIdsSpec(db: Store)
    requires Valid(db)
    ensures forall i :: 0 <= i < |BookIds(db)| ==> BookIds(db)[i] in db.books
    ensures forall id :: id in db.books ==> id in BookIds(db)
    ensures forall i, j :: 0 <= i < j < |BookIds(db)| ==> BookIds(db)[i] < BookIds(db)[j]
  {
  }
}
