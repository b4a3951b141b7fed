/** The `BookService` facade over either repository: creation through the
    parameterised `Book` constructor, the blank-search fallback to the full list,
    the orderings it adds on top of the repository, the author suggestions and the
    grouping of books by genre. The service holds no state of its own, so each
    operation is a function of the repository and its store. */
module Service {
  import opened Text
  import opened Seqs
  import opened GenreNames
  import opened Entities
  import opened Schema
  import opened Queries
  import EfRepo
  import DapperRepo

  /** The repository the service was constructed with. */
  datatype Backend = Ef | Dapper

  // ---------------------------------------------------------------------------
  // The repository interface as the service calls it

  function RepoGetAll(be: Backend, db: Store): seq<Book>
    requires Valid(db)
  {
    match be
    case Ef => EfRepo.GetAll(db)
    case Dapper => DapperRepo.ListAll(db)
  }

  function RepoGetById(be: Backend, db: Store, id: int): Option<Book> {
    match be
    case Ef => EfRepo.GetById(db, id)
    case Dapper => DapperRepo.FindById(db, id)
  }

  function RepoFindByAuthor(be: Backend, db: Store, author: string): seq<Book>
    requires Valid(db)
  {
    match be
    case Ef => EfRepo.FindByAuthor(db, author)
    case Dapper => FindByAuthorIn(DapperRepo.ListAll(db), author)
  }

  function RepoFindByTitle(be: Backend, db: Store, title: string): seq<Book>
    requires Valid(db)
  {
    match be
    case Ef => EfRepo.FindByTitle(db, title)
    case Dapper => FindByTitleIn(DapperRepo.ListAll(db), title)
  }

  function RepoGetAllGenres(be: Backend, db: Store): seq<string> {
    match be
    case Ef => EfRepo.GetAllGenres(db)
    case Dapper => DapperRepo.GetAllGenres(db)
  }

  /** `Add`; the tracked-context repository cannot fail. */
  function RepoAdd(be: Backend, db: Store, b: Book): (Store, Result<Book>) {
    match be
    case Ef => var (d, a) := EfRepo.Added(db, b); (d, Ok(a))
    case Dapper => DapperRepo.Added(db, b)
  }

  /** `Update`; the tracked-context repository cannot fail. */
  function RepoUpdate(be: Backend, db: Store, b: Book): (Store, Result<bool>) {
    match be
    case Ef => var (d, ok) := EfRepo.Updated(db, b); (d, Ok(ok))
    case Dapper => DapperRepo.Updated(db, b)
  }

  /** `Delete`: both repositories remove the row and, by the cascade, its links. */
  function RepoDelete(be: Backend, db: Store, id: int): (Store, bool) {
    DeleteById(db, id)
  }

  /** The row a book's scalar fields make. */
  function RowOf(b: Book): BookRow {
    BookRow(b.title, b.author, b.year)
  }

  /** Some listed book has the ID. */
  predicate Listed(books: seq<Book>, id: int) {
    exists i :: 0 <= i < |books| && books[i].id == id
  }

  /** `books` lists every stored book exactly once, with its row, by ascending ID. */
  ghost predicate ListsStore(db: Store, books: seq<Book>) {
    && (forall i :: 0 <= i < |books| ==> books[i].id in db.books && RowOf(books[i]) == db.books[books[i].id])
    && (forall id :: id in db.books ==> Listed(books, id))
    && (forall i, j :: 0 <= i < j < |books| ==> books[i].id < books[j].id)
  }

  /** Either repository's `GetAll` lists the store, each book as `GetById` reads it. */
  lemma RepoGetAllSpec(be: Backend, db: Store)
    requires Valid(db)
    ensures ListsStore(db, RepoGetAll(be, db))
    ensures forall i :: 0 <= i < |RepoGetAll(be, db)| ==>
      RepoGetById(be, db, RepoGetAll(be, db)[i].id) == Some(RepoGetAll(be, db)[i])
  {
    match be
    case Ef => EfListsStore(db);
    case Dapper => DapperListsStore(db);
  }

  lemma EfListsStore(db: Store)
    requires Valid(db)
    ensures ListsStore(db, EfRepo.GetAll(db))
    ensures forall i :: 0 <= i < |EfRepo.GetAll(db)| ==>
      EfRepo.GetById(db, EfRepo.GetAll(db)[i].id) == Some(EfRepo.GetAll(db)[i])
  {
    var r := EfRepo.GetAll(db);
    EfRepo.GetAllSpec(db);
    forall id | id in db.books ensures Listed(r, id) {
      var i :| 0 <= i < |r| && r[i] == EfRepo.BookAt(db, id);
    }
  }

  lemma DapperListsStore(db: Store)
    requires Valid(db)
    ensures ListsStore(db, DapperRepo.ListAll(db))
    ensures forall i :: 0 <= i < |DapperRepo.ListAll(db)| ==>
      DapperRepo.FindById(db, DapperRepo.ListAll(db)[i].id) == Some(DapperRepo.ListAll(db)[i])
  {
    var r := DapperRepo.ListAll(db);
    DapperRepo.ListAllSpec(db);
    forall id | id in db.books ensures Listed(r, id) {
      var i :| 0 <= i < |r| && r[i] == DapperRepo.BookAt(db, id);
    }
  }

  // ---------------------------------------------------------------------------
  // GetAllBooks, GetBookById, DeleteBook

  /** `GetAllBooks`: the repository's books ordered by ID. */
  function GetAllBooks(be: Backend, db: Store): seq<Book>
    requires Valid(db)
  {
    SortBy(RepoGetAll(be, db), IdLe)
  }

  /** The books come ascending by ID, one per stored book; since the repository
      already lists them that way, the ordering leaves its list as it is. */
  lemma GetAllBooksSpec(be: Backend, db: Store)
    requires Valid(db)
    ensures GetAllBooks(be, db) == RepoGetAll(be, db)
    ensures SortedBy(GetAllBooks(be, db), IdLe)
    ensures ListsStore(db, GetAllBooks(be, db))
  {
    RepoGetAllSpec(be, db);
    SortByOfSorted(RepoGetAll(be, db), IdLe);
  }

  /** `GetBookById`. */
  function GetBookById(be: Backend, db: Store, id: int): Option<Book> {
    RepoGetById(be, db, id)
  }

  /** A book is found exactly when a row has the ID; it then carries that ID and
      row, and it is the book `GetAllBooks` lists under the ID. */
  lemma GetBookByIdSpec(be: Backend, db: Store, id: int)
    requires Valid(db)
    ensures GetBookById(be, db, id).Some? <==> id in db.books
    ensures GetBookById(be, db, id).Some? ==>
      && GetBookById(be, db, id).value.id == id
      && RowOf(GetBookById(be, db, id).value) == db.books[id]
      && GetBookById(be, db, id).value in GetAllBooks(be, db)
  {
    GetAllBooksSpec(be, db);
    RepoGetAllSpec(be, db);
    if id in db.books {
      var r := GetAllBooks(be, db);
      var i :| 0 <= i < |r| && r[i].id == id;
      assert RepoGetById(be, db, r[i].id) == Some(r[i]);
    }
  }

  /** `DeleteBook`. */
  function DeleteBook(be: Backend, db: Store, id: int): (Store, bool) {
    RepoDelete(be, db, id)
  }

  /** Deleting reports whether the book existed; afterwards it is not found, and
      every other book reads back exactly as before, genres included. */
  lemma DeleteBookSpec(be: Backend, db: Store, id: int)
    requires Valid(db)
    ensures var (d, ok) := DeleteBook(be, db, id);
      && Valid(d) && (ok <==> id in db.books) && (!ok ==> d == db)
      && GetBookById(be, d, id) == None
      && d.genres == db.genres
      && (forall k :: k != id ==> GetBookById(be, d, k) == GetBookById(be, db, k))
  {
    DeleteByIdSpec(db, id);
    var (d, ok) := DeleteBook(be, db, id);
    forall k | k != id ensures GetBookById(be, d, k) == GetBookById(be, db, k) {
      if ok && k in db.books {
        DeleteKeepsOther(db, id, k);
      }
    }
  }

  /** Deleting one book leaves another book's row and linked genres alone. */
  lemma DeleteKeepsOther(db: Store, id: int, k: int)
    requires k != id && k in db.books
    ensures Schema.DeleteBook(db, id).books[k] == db.books[k]
    ensures LinkedGenres(Schema.DeleteBook(db, id), k) == LinkedGenres(db, k)
  {
    var d := Schema.DeleteBook(db, id);
    assert (set l: Link | l in d.links && l.bookId == k && l.genreId in d.genres :: l.genreId)
        == (set l: Link | l in db.links && l.bookId == k && l.genreId in db.genres :: l.genreId);
    assert LinkedGenreIds(d, k) == LinkedGenreIds(db, k);
  }

  // ---------------------------------------------------------------------------
  // CreateBook, UpdateBook

  /** `CreateBook`: the constructed book handed to `Add`. */
  function CreateBook(be: Backend, db: Store, title: string, author: string, year: int, genres: seq<string>)
    : (Store, Result<Book>)
  {
    RepoAdd(be, db, NewBook(title, author, year, genres))
  }

  /** Creation keeps the store valid. It always succeeds over the tracked context;
      over SQL it succeeds exactly when the cleaned genre names differ pairwise
      ignoring case, and a failure leaves the store as it was. A created book gets
      the next book ID and the given title, author and year, which are stored as
      a new row with every other row kept. */
  lemma CreateBookSpec(be: Backend, db: Store, title: string, author: string, year: int, genres: seq<string>)
    requires Valid(db)
    ensures var (d, r) := CreateBook(be, db, title, author, year, genres);
      && Valid(d)
      && (r.Ok? <==> be == Ef || KeysDistinct(CleanNames(genres), Fold))
      && (r.Err? ==> d == db)
      && (r.Ok? ==>
            && r.value.id == db.nextBookId && db.nextBookId !in db.books
            && r.value.title == title && r.value.author == author && r.value.year == year
            && d.books == db.books[db.nextBookId := BookRow(title, author, year)])
  {
    var b := NewBook(title, author, year, genres);
    match be
    case Ef =>
      EfRepo.AddedSpec(db, b);
    case Dapper =>
      DapperRepo.ExtractFromNewBook(title, author, year, genres);
      DapperRepo.AddedSpec(db, b);
  }

  /** A created book reads back under its ID with its title, author and year.
      Over the tracked context its genres are exactly the ones creation returned,
      which match the normalised names ignoring case; over SQL they are exactly
      the stored rows whose name is one of the cleaned names. */
  lemma CreateThenGetBook(be: Backend, db: Store, title: string, author: string, year: int, genres: seq<string>)
    requires Valid(db)
    requires CreateBook(be, db, title, author, year, genres).1.Ok?
    ensures var (d, r) := CreateBook(be, db, title, author, year, genres);
      && GetBookById(be, d, r.value.id).Some?
      && var a := GetBookById(be, d, r.value.id).value;
      && a.title == title && a.author == author && a.year == year
      && (be == Ef ==>
            && (forall g :: g in a.genres <==> g in r.value.genres)
            && |r.value.genres| == |Normalize(CleanNames(genres))|
            && (forall i :: 0 <= i < |r.value.genres| ==>
                  Fold(r.value.genres[i].name) == Fold(Normalize(CleanNames(genres))[i])))
      && (be == Dapper ==>
            forall g :: g in a.genres <==> g.id in d.genres && g.name == d.genres[g.id] && g.name in CleanNames(genres))
  {
    var b := NewBook(title, author, year, genres);
    match be
    case Ef =>
      EfRepo.AddedThenGetById(db, b);
      EfRepo.AddedSpec(db, b);
      EfRepo.ResolveSpec(db, NamesOf(b.genres));
    case Dapper =>
      DapperRepo.ExtractFromNewBook(title, author, year, genres);
      DapperRepo.AddedSpec(db, b);
      var (d, r) := DapperRepo.Added(db, b);
      DapperRepo.AttachedGenresSpec(d, db.nextBookId);
  }

  /** `UpdateBook`: the constructed book with the given ID handed to `Update`. */
  function UpdateBook(be: Backend, db: Store, id: int, title: string, author: string, year: int, genres: seq<string>)
    : (Store, Result<bool>)
  {
    RepoUpdate(be, db, NewBook(title, author, year, genres).(id := id))
  }

  /** Updating an absent ID reports false and changes nothing. Otherwise the
      update keeps the store valid; it always succeeds over the tracked context,
      over SQL exactly when the cleaned names differ pairwise ignoring case, and a
      failure leaves the store as it was. A success reports true and overwrites
      the row with the new title, author and year. */
  lemma UpdateBookSpec(be: Backend, db: Store, id: int, title: string, author: string, year: int, genres: seq<string>)
    requires Valid(db)
    ensures id !in db.books ==> UpdateBook(be, db, id, title, author, year, genres) == (db, Ok(false))
    ensures id in db.books ==>
      var (d, r) := UpdateBook(be, db, id, title, author, year, genres);
      && Valid(d)
      && (r.Ok? <==> be == Ef || KeysDistinct(CleanNames(genres), Fold))
      && (r.Err? ==> d == db)
      && (r.Ok? ==> r.value && d.books == db.books[id := BookRow(title, author, year)])
  {
    var b := NewBook(title, author, year, genres).(id := id);
    match be
    case Ef =>
      EfRepo.UpdatedSpec(db, b);
    case Dapper =>
      DapperRepo.ExtractFromNewBook(title, author, year, genres);
      assert DapperRepo.ExtractGenreNames(b) == CleanNames(genres);
      DapperRepo.UpdatedSpec(db, b);
  }

  /** An updated book reads back with the new title, author and year; over SQL its
      genres are exactly the stored rows whose name is one of the cleaned names. */
  lemma UpdateThenGetBook(be: Backend, db: Store, id: int, title: string, author: string, year: int, genres: seq<string>)
    requires Valid(db) && id in db.books
    requires UpdateBook(be, db, id, title, author, year, genres).1.Ok?
    ensures var d := UpdateBook(be, db, id, title, author, year, genres).0;
      && GetBookById(be, d, id).Some?
      && var a := GetBookById(be, d, id).value;
      && a.title == title && a.author == author && a.year == year
      && (be == Dapper ==>
            forall g :: g in a.genres <==> g.id in d.genres && g.name == d.genres[g.id] && g.name in CleanNames(genres))
  {
    var b := NewBook(title, author, year, genres).(id := id);
    match be
    case Ef =>
      EfRepo.UpdatedThenGetById(db, b);
    case Dapper =>
      DapperRepo.ExtractFromNewBook(title, author, year, genres);
      assert DapperRepo.ExtractGenreNames(b) == CleanNames(genres);
      DapperRepo.UpdatedSpec(db, b);
      DapperRepo.AttachedGenresSpec(UpdateBook(be, db, id, title, author, year, genres).0, id);
  }

  // ---------------------------------------------------------------------------
  // FindBooksByAuthor, FindBooksByTitle

  /** `FindBooksByAuthor`: the full list for a blank fragment, else the search. */
  function FindBooksByAuthor(be: Backend, db: Store, author: string): seq<Book>
    requires Valid(db)
  {
    if IsBlank(author) then GetAllBooks(be, db) else RepoFindByAuthor(be, db, author)
  }

  /** `FindBooksByTitle`: the full list for a blank fragment, else the search. */
  function FindBooksByTitle(be: Backend, db: Store, title: string): seq<Book>
    requires Valid(db)
  {
    if IsBlank(title) then GetAllBooks(be, db) else RepoFindByTitle(be, db, title)
  }

  /** The search relation both finders share: for a blank fragment, every stored
      book by ascending ID; otherwise exactly the listed books whose field
      contains the trimmed fragment ignoring case, ordered by title. */
  ghost predicate Found(db: Store, all: seq<Book>, fragment: string, field: Book -> string, r: seq<Book>) {
    if IsBlank(fragment) then r == all && ListsStore(db, r)
    else
      && SortedBy(r, TitleLe)
      && multiset(r) == multiset(Filter(all, b => Matches(field(b), Trim(fragment))))
      && (forall i :: 0 <= i < |r| ==> r[i] in all && Matches(field(r[i]), Trim(fragment)))
      && (forall i :: 0 <= i < |all| && Matches(field(all[i]), Trim(fragment)) ==> all[i] in r)
  }

  lemma FoundOf(be: Backend, db: Store, fragment: string, field: Book -> string, r: seq<Book>)
    requires Valid(db)
    requires r == if IsBlank(fragment) then GetAllBooks(be, db) else FindIn(RepoGetAll(be, db), fragment, field)
    ensures Found(db, RepoGetAll(be, db), fragment, field, r)
  {
    GetAllBooksSpec(be, db);
    FindInSpec(RepoGetAll(be, db), fragment, field);
  }

  lemma FindBooksByAuthorSpec(be: Backend, db: Store, author: string)
    requires Valid(db)
    ensures Found(db, RepoGetAll(be, db), author, (b: Book) => b.author, FindBooksByAuthor(be, db, author))
  {
    FoundOf(be, db, author, (b: Book) => b.author, FindBooksByAuthor(be, db, author));
  }

  lemma FindBooksByTitleSpec(be: Backend, db: Store, title: string)
    requires Valid(db)
    ensures Found(db, RepoGetAll(be, db), title, (b: Book) => b.title, FindBooksByTitle(be, db, title))
  {
    FoundOf(be, db, title, (b: Book) => b.title, FindBooksByTitle(be, db, title));
  }

  // ---------------------------------------------------------------------------
  // GetAllGenres

  /** `GetAllGenres`: the repository's names ordered ignoring case. */
  function GetAllGenres(be: Backend, db: Store): seq<string> {
    SortBy(RepoGetAllGenres(be, db), FoldLe)
  }

  /** The names are the repository's, reordered ignoring case: trimmed, non-blank,
      pairwise different ignoring case, and one for the fold of every non-blank
      stored name. */
  lemma GetAllGenresSpec(be: Backend, db: Store)
    requires Valid(db)
    ensures var r := GetAllGenres(be, db);
      && SortedBy(r, FoldLe)
      && multiset(r) == multiset(RepoGetAllGenres(be, db))
      && AllClean(r) && KeysDistinct(r, Fold)
      && (forall id :: id in db.genres && !IsBlank(db.genres[id]) ==> HasKey(r, Fold, Fold(Trim(db.genres[id]))))
  {
    match be {
      case Ef => EfRepo.GetAllGenresSpec(db);
      case Dapper => DapperRepo.GetAllGenresSpec(db);
    }
    SortNames(db, RepoGetAllGenres(be, db));
  }

  /** Ordering clean, distinct names that cover the stored names keeps all three. */
  lemma SortNames(db: Store, n: seq<string>)
    requires AllClean(n) && KeysDistinct(n, Fold)
    requires forall id :: id in db.genres && !IsBlank(db.genres[id]) ==> HasKey(n, Fold, Fold(Trim(db.genres[id])))
    ensures var r := SortBy(n, FoldLe);
      && SortedBy(r, FoldLe) && multiset(r) == multiset(n)
      && AllClean(r) && KeysDistinct(r, Fold)
      && (forall id :: id in db.genres && !IsBlank(db.genres[id]) ==> HasKey(r, Fold, Fold(Trim(db.genres[id]))))
  {
    var r := SortBy(n, FoldLe);
    FoldLeTotalPreorder();
    SortBySorted(n, FoldLe);
    AllCleanPermutation(r, n);
    PermutationKeysDistinct(r, n, Fold);
    forall id | id in db.genres && !IsBlank(db.genres[id]) ensures HasKey(r, Fold, Fold(Trim(db.genres[id]))) {
      PermutationHasKey(r, n, Fold, Fold(Trim(db.genres[id])));
    }
  }

  /** The tracked-context repository already orders its names ignoring case, so
      the service's ordering changes nothing there. */
  lemma GetAllGenresOfEf(db: Store)
    requires Valid(db)
    ensures GetAllGenres(Ef, db) == EfRepo.GetAllGenres(db)
  {
    EfRepo.GetAllGenresSpec(db);
    SortByOfSorted(EfRepo.GetAllGenres(db), FoldLe);
  }

  /** Over SQL every name the service lists is the trimmed form of a stored name. */
  lemma GetAllGenresOfDapper(db: Store)
    requires Valid(db)
    ensures forall i :: 0 <= i < |GetAllGenres(Dapper, db)| ==> DapperRepo.TrimOfStored(db, GetAllGenres(Dapper, db)[i])
  {
    var n := DapperRepo.GetAllGenres(db);
    var r := GetAllGenres(Dapper, db);
    DapperRepo.GetAllGenresSpec(db);
    assert multiset(r) == multiset(n);
    forall i | 0 <= i < |r| ensures DapperRepo.TrimOfStored(db, r[i]) {
      assert r[i] in multiset(n);
      var j :| 0 <= j < |n| && n[j] == r[i];
    }
  }

  // ---------------------------------------------------------------------------
  // GetAuthorSuggestions

  /** The authors of a book list, in list order. */
  function Authors(books: seq<Book>): (r: seq<string>)
    ensures |r| == |books|
    ensures forall i :: 0 <= i < |books| ==> r[i] == books[i].author
  {
    seq(|books|, i requires 0 <= i < |books| => books[i].author)
  }

  /** The `Where(!IsNullOrWhiteSpace)` predicate. */
  predicate NotBlank(s: string) {
    !IsBlank(s)
  }

  /** The pipeline over a list of books: the non-blank authors, one per author
      ignoring case, ordered ignoring case. */
  function Suggest(books: seq<Book>): seq<string> {
    SortBy(DistinctOn(Filter(Authors(books), NotBlank), Fold), FoldLe)
  }

  /** `GetAuthorSuggestions`: over every book for a blank fragment, otherwise over
      the books the author search finds. The author names are not trimmed. */
  function GetAuthorSuggestions(be: Backend, db: Store, fragment: string): seq<string>
    requires Valid(db)
  {
    Suggest(if IsBlank(fragment) then RepoGetAll(be, db) else RepoFindByAuthor(be, db, fragment))
  }

  /** Some listed book is by the author. */
  predicate WrittenBy(books: seq<Book>, author: string) {
    exists j :: 0 <= j < |books| && books[j].author == author
  }

  /** Every suggestion is the non-blank author of a listed book; no two are equal
      ignoring case; they are ordered ignoring case; and every non-blank author of
      a listed book is suggested in some spelling equal ignoring case. */
  lemma SuggestSpec(books: seq<Book>)
    ensures var r := Suggest(books);
      && (forall i :: 0 <= i < |r| ==> !IsBlank(r[i]) && WrittenBy(books, r[i]))
      && KeysDistinct(r, Fold) && SortedBy(r, FoldLe)
      && (forall j :: 0 <= j < |books| && !IsBlank(books[j].author) ==> HasKey(r, Fold, Fold(books[j].author)))
  {
    var authors := Authors(books);
    var named := Filter(authors, NotBlank);
    var distinct := DistinctOn(named, Fold);
    var r := Suggest(books);
    DistinctOnSpec(named, Fold);
    FoldLeTotalPreorder();
    SortBySorted(distinct, FoldLe);
    PermutationKeysDistinct(r, distinct, Fold);
    forall i | 0 <= i < |r| ensures !IsBlank(r[i]) && WrittenBy(books, r[i]) {
      assert r[i] in multiset(distinct);
      assert r[i] in named;
      var j :| 0 <= j < |authors| && authors[j] == r[i];
    }
    forall j | 0 <= j < |books| && !IsBlank(books[j].author) ensures HasKey(r, Fold, Fold(books[j].author)) {
      assert NotBlank(authors[j]);
      assert authors[j] in named;
      var k :| 0 <= k < |named| && named[k] == authors[j];
      PermutationHasKey(r, distinct, Fold, Fold(books[j].author));
    }
  }

  /** Suggestions in store terms: each is the non-blank author of a stored book,
      and, for a non-blank fragment, contains the trimmed fragment ignoring case;
      no two are equal ignoring case; they are ordered ignoring case; and every
      non-blank author of a stored book (whose author, for a non-blank fragment,
      contains the trimmed fragment ignoring case) is suggested in some spelling
      equal ignoring case. */
  lemma GetAuthorSuggestionsSpec(be: Backend, db: Store, fragment: string)
    requires Valid(db)
    ensures var r := GetAuthorSuggestions(be, db, fragment);
      && KeysDistinct(r, Fold) && SortedBy(r, FoldLe)
      && (forall i :: 0 <= i < |r| ==>
            && !IsBlank(r[i]) && AuthorOfStored(db, r[i])
            && (!IsBlank(fragment) ==> ContainsIgnoreCase(r[i], Trim(fragment))))
      && (forall id :: id in db.books && !IsBlank(db.books[id].author)
            && (IsBlank(fragment) || ContainsIgnoreCase(db.books[id].author, Trim(fragment)))
            ==> HasKey(r, Fold, Fold(db.books[id].author)))
  {
    RepoGetAllSpec(be, db);
    FindInSpec(RepoGetAll(be, db), fragment, (b: Book) => b.author);
    var src := if IsBlank(fragment) then RepoGetAll(be, db) else RepoFindByAuthor(be, db, fragment);
    SuggestFrom(db, RepoGetAll(be, db), src, fragment);
  }

  /** The suggestions over books drawn from a listing of the store: all of them
      for a blank fragment, otherwise exactly the listed books whose author
      matches the trimmed fragment. */
  lemma SuggestFrom(db: Store, all: seq<Book>, src: seq<Book>, fragment: string)
    requires ListsStore(db, all)
    requires IsBlank(fragment) ==> src == all
    requires !IsBlank(fragment) ==>
      && (forall i :: 0 <= i < |src| ==> src[i] in all && Matches(src[i].author, Trim(fragment)))
      && (forall i :: 0 <= i < |all| && Matches(all[i].author, Trim(fragment)) ==> all[i] in src)
    ensures var r := Suggest(src);
      && KeysDistinct(r, Fold) && SortedBy(r, FoldLe)
      && (forall i :: 0 <= i < |r| ==>
            && !IsBlank(r[i]) && AuthorOfStored(db, r[i])
            && (!IsBlank(fragment) ==> ContainsIgnoreCase(r[i], Trim(fragment))))
      && (forall id :: id in db.books && !IsBlank(db.books[id].author)
            && (IsBlank(fragment) || ContainsIgnoreCase(db.books[id].author, Trim(fragment)))
            ==> HasKey(r, Fold, Fold(db.books[id].author)))
  {
    var r := Suggest(src);
    SuggestSpec(src);
    forall i | 0 <= i < |r|
      ensures AuthorOfStored(db, r[i]) && (!IsBlank(fragment) ==> ContainsIgnoreCase(r[i], Trim(fragment)))
    {
      SuggestionFrom(db, all, src, fragment, r[i]);
    }
    forall id | id in db.books && !IsBlank(db.books[id].author)
        && (IsBlank(fragment) || ContainsIgnoreCase(db.books[id].author, Trim(fragment)))
      ensures HasKey(r, Fold, Fold(db.books[id].author))
    {
      AuthorSuggested(db, all, src, fragment, id);
    }
  }

  /** An author of a drawn book is the author of a stored book and, for a
      non-blank fragment, contains it. */
  lemma SuggestionFrom(db: Store, all: seq<Book>, src: seq<Book>, fragment: string, a: string)
    requires ListsStore(db, all)
    requires IsBlank(fragment) ==> src == all
    requires !IsBlank(fragment) ==>
      forall i :: 0 <= i < |src| ==> src[i] in all && Matches(src[i].author, Trim(fragment))
    requires WrittenBy(src, a)
    ensures AuthorOfStored(db, a) && (!IsBlank(fragment) ==> ContainsIgnoreCase(a, Trim(fragment)))
  {
    var j :| 0 <= j < |src| && src[j].author == a;
    assert src[j] in all;
    var k :| 0 <= k < |all| && all[k] == src[j];
    assert RowOf(all[k]) == db.books[all[k].id];
  }

  /** A stored book whose author is non-blank (and matches a non-blank fragment)
      is among the drawn books. */
  lemma AuthorSuggested(db: Store, all: seq<Book>, src: seq<Book>, fragment: string, id: int)
    requires ListsStore(db, all)
    requires IsBlank(fragment) ==> src == all
    requires !IsBlank(fragment) ==>
      forall i :: 0 <= i < |all| && Matches(all[i].author, Trim(fragment)) ==> all[i] in src
    requires id in db.books && !IsBlank(db.books[id].author)
    requires IsBlank(fragment) || ContainsIgnoreCase(db.books[id].author, Trim(fragment))
    requires forall j :: 0 <= j < |src| && !IsBlank(src[j].author) ==> HasKey(Suggest(src), Fold, Fold(src[j].author))
    ensures HasKey(Suggest(src), Fold, Fold(db.books[id].author))
  {
    assert Listed(all, id);
    var k :| 0 <= k < |all| && all[k].id == id;
    assert RowOf(all[k]) == db.books[id];
    assert all[k] in src;
    var j :| 0 <= j < |src| && src[j] == all[k];
  }

  /** Some stored book is by the author. */
  ghost predicate AuthorOfStored(db: Store, author: string) {
    exists id :: id in db.books && db.books[id].author == author
  }

  // ---------------------------------------------------------------------------
  // GroupBooksByGenre

  /** One `(Genre, Book)` pair of the `SelectMany` stage. */
  datatype Item = Item(genre: string, book: Book)

  /** A book's pairs: one per genre, by name, or one under the placeholder when it
      has none. */
  function ItemsOf(b: Book): seq<Item> {
    if |b.genres| > 0 then seq(|b.genres|, k requires 0 <= k < |b.genres| => Item(b.genres[k].name, b))
    else [Item(NoGenre, b)]
  }

  /** `SelectMany` over the books, in order. */
  function Items(books: seq<Book>): seq<Item> {
    if books == [] then [] else Items(books[..|books| - 1]) + ItemsOf(books[|books| - 1])
  }

  /** The `GroupBy` key: the placeholder for a blank name, else the name as is. */
  function GroupKey(name: string): string {
    if IsBlank(name) then NoGenre else name
  }

  function ItemKey(it: Item): string {
    GroupKey(it.genre)
  }

  /** Where a pair files its book. */
  function Filing(it: Item): (string, Book) {
    (GroupKey(it.genre), it.book)
  }

  /** `GroupBy` then `ToDictionary` with `Select(book).Distinct()`: one entry per
      key in first-seen order of the pairs, listing each book once, in the order
      its first pair under that key comes. */
  function Grouped(items: seq<Item>): map<string, seq<Book>> {
    if items == [] then map[]
    else
      var m := Grouped(items[..|items| - 1]);
      var it := items[|items| - 1];
      var k := GroupKey(it.genre);
      if k !in m then m[k := [it.book]]
      else if it.book in m[k] then m
      else m[k := m[k] + [it.book]]
  }

  /** `GroupBooksByGenre`, over the repository's `GetAll`. */
  function GroupBooksByGenre(be: Backend, db: Store): map<string, seq<Book>>
    requires Valid(db)
  {
    Grouped(Items(RepoGetAll(be, db)))
  }

  /** No element occurs twice. */
  ghost predicate NoDuplicates<T>(xs: seq<T>) {
    forall i, j :: 0 <= i < j < |xs| ==> xs[i] != xs[j]
  }

  /** `m` groups `items`: its keys are exactly the pairs' keys, and a group lists
      exactly the books of the pairs with its key, each once. */
  ghost predicate GroupsOf(items: seq<Item>, m: map<string, seq<Book>>) {
    && (forall k :: k in m <==> HasKey(items, ItemKey, k))
    && (forall k, b :: k in m ==> (b in m[k] <==> HasKey(items, Filing, (k, b))))
    && (forall k :: k in m ==> NoDuplicates(m[k]))
  }

  lemma {:induction false} GroupedSpec(items: seq<Item>)
    ensures GroupsOf(items, Grouped(items))
    decreases |items|
  {
    if items != [] {
      var init := items[..|items| - 1];
      var it := items[|items| - 1];
      GroupedSpec(init);
      SplitLast(items);
      var m0 := Grouped(init);
      var k0 := GroupKey(it.genre);
      SnocKeys(init, it);
      if k0 !in m0 {
        GroupNewKey(init, it, m0);
      } else if it.book in m0[k0] {
        GroupSeen(init, it, m0);
      } else {
        GroupAppend(init, it, m0);
      }
    }
  }

  /** The keys and filings of one more pair. */
  lemma SnocKeys(init: seq<Item>, it: Item)
    ensures forall k :: HasKey(init + [it], ItemKey, k) <==> HasKey(init, ItemKey, k) || k == GroupKey(it.genre)
    ensures forall k, b :: HasKey(init + [it], Filing, (k, b)) <==>
      HasKey(init, Filing, (k, b)) || (k == GroupKey(it.genre) && b == it.book)
  {
    forall k ensures HasKey(init + [it], ItemKey, k) <==> HasKey(init, ItemKey, k) || k == GroupKey(it.genre) {
      HasKeySnoc(init, it, ItemKey, k);
    }
    forall k, b ensures HasKey(init + [it], Filing, (k, b)) <==>
      HasKey(init, Filing, (k, b)) || (k == GroupKey(it.genre) && b == it.book)
    {
      HasKeySnoc(init, it, Filing, (k, b));
    }
  }

  /** A pair with a new key opens a group with its book. */
  lemma GroupNewKey(init: seq<Item>, it: Item, m0: map<string, seq<Book>>)
    requires GroupsOf(init, m0) && GroupKey(it.genre) !in m0
    requires forall k :: HasKey(init + [it], ItemKey, k) <==> HasKey(init, ItemKey, k) || k == GroupKey(it.genre)
    requires forall k, b :: HasKey(init + [it], Filing, (k, b)) <==>
      HasKey(init, Filing, (k, b)) || (k == GroupKey(it.genre) && b == it.book)
    ensures GroupsOf(init + [it], m0[GroupKey(it.genre) := [it.book]])
  {
  }

  /** A pair whose book its group already lists changes nothing. */
  lemma GroupSeen(init: seq<Item>, it: Item, m0: map<string, seq<Book>>)
    requires GroupsOf(init, m0) && GroupKey(it.genre) in m0 && it.book in m0[GroupKey(it.genre)]
    requires forall k :: HasKey(init + [it], ItemKey, k) <==> HasKey(init, ItemKey, k) || k == GroupKey(it.genre)
    requires forall k, b :: HasKey(init + [it], Filing, (k, b)) <==>
      HasKey(init, Filing, (k, b)) || (k == GroupKey(it.genre) && b == it.book)
    ensures GroupsOf(init + [it], m0)
  {
  }

  /** A pair with a new book for an existing key appends it to that group. */
  lemma GroupAppend(init: seq<Item>, it: Item, m0: map<string, seq<Book>>)
    requires GroupsOf(init, m0) && GroupKey(it.genre) in m0 && it.book !in m0[GroupKey(it.genre)]
    requires forall k :: HasKey(init + [it], ItemKey, k) <==> HasKey(init, ItemKey, k) || k == GroupKey(it.genre)
    requires forall k, b :: HasKey(init + [it], Filing, (k, b)) <==>
      HasKey(init, Filing, (k, b)) || (k == GroupKey(it.genre) && b == it.book)
    ensures GroupsOf(init + [it], m0[GroupKey(it.genre) := m0[GroupKey(it.genre)] + [it.book]])
  {
    var k0 := GroupKey(it.genre);
    var g := m0[k0] + [it.book];
    assert NoDuplicates(m0[k0]);
    assert NoDuplicates(g) by {
      forall i, j | 0 <= i < j < |g| ensures g[i] != g[j] {
        if j == |g| - 1 {
          assert g[i] == m0[k0][i];
        } else {
          assert g[i] == m0[k0][i] && g[j] == m0[k0][j];
        }
      }
    }
  }

  /** Each pair files its book under one of the book's genres, or under the
      placeholder when it has none. */
  ghost predicate FiledUnder(b: Book, key: string) {
    if b.genres == [] then key == NoGenre
    else exists k :: 0 <= k < |b.genres| && GroupKey(b.genres[k].name) == key
  }

  /** The pairs of the books: each comes from a listed book and files it as that
      book's genres say, and every book has its pairs among them. */
  lemma {:induction false} ItemsSpec(books: seq<Book>)
    ensures forall i :: 0 <= i < |Items(books)| ==>
      Items(books)[i].book in books && Items(books)[i] in ItemsOf(Items(books)[i].book)
    ensures forall j, x :: 0 <= j < |books| && x in ItemsOf(books[j]) ==> x in Items(books)
    decreases |books|
  {
    if books != [] {
      var init := books[..|books| - 1];
      var last := books[|books| - 1];
      ItemsSpec(init);
      SplitLast(books);
      var xs := Items(books);
      assert xs == Items(init) + ItemsOf(last);
      forall i | 0 <= i < |xs| ensures xs[i].book in books && xs[i] in ItemsOf(xs[i].book) {
        if i < |Items(init)| {
          assert xs[i] == Items(init)[i];
        } else {
          assert xs[i] == ItemsOf(last)[i - |Items(init)|];
          ItemsOfSpec(last);
        }
      }
      forall j, x | 0 <= j < |books| && x in ItemsOf(books[j]) ensures x in xs {
        if j < |init| {
          assert books[j] == init[j];
        }
      }
    }
  }

  /** A book's pairs all carry it and file it as its genres say; it has a pair
      for each genre, or one under the placeholder. */
  lemma ItemsOfSpec(b: Book)
    ensures forall x :: x in ItemsOf(b) ==> x.book == b && FiledUnder(b, ItemKey(x))
    ensures b.genres == [] ==> Item(NoGenre, b) in ItemsOf(b)
    ensures forall k :: 0 <= k < |b.genres| ==> Item(b.genres[k].name, b) in ItemsOf(b)
  {
    forall k | 0 <= k < |b.genres| ensures Item(b.genres[k].name, b) in ItemsOf(b) {
      assert ItemsOf(b)[k] == Item(b.genres[k].name, b);
    }
  }

  /** A book without genres is grouped under "Без жанра"; a book with genres is
      grouped under each of their names, a blank name counting as "Без жанра";
      every grouped book is a listed book filed under one of its genres (or the
      placeholder); and no group lists a book twice. */
  lemma GroupBooksByGenreSpec(be: Backend, db: Store)
    requires Valid(db)
    ensures var books := RepoGetAll(be, db);
      var m := GroupBooksByGenre(be, db);
      && (forall j :: 0 <= j < |books| && books[j].genres == [] ==> NoGenre in m && books[j] in m[NoGenre])
      && (forall j, k :: 0 <= j < |books| && 0 <= k < |books[j].genres| ==>
            GroupKey(books[j].genres[k].name) in m && books[j] in m[GroupKey(books[j].genres[k].name)])
      && (forall key, i :: key in m && 0 <= i < |m[key]| ==> m[key][i] in books && FiledUnder(m[key][i], key))
      && (forall key :: key in m ==> m[key] != [] && NoDuplicates(m[key]))
  {
    GroupFrom(RepoGetAll(be, db));
  }

  /** The grouping statement over any list of books. */
  lemma GroupFrom(books: seq<Book>)
    ensures var m := Grouped(Items(books));
      && (forall j :: 0 <= j < |books| && books[j].genres == [] ==> NoGenre in m && books[j] in m[NoGenre])
      && (forall j, k :: 0 <= j < |books| && 0 <= k < |books[j].genres| ==>
            GroupKey(books[j].genres[k].name) in m && books[j] in m[GroupKey(books[j].genres[k].name)])
      && (forall key, i :: key in m && 0 <= i < |m[key]| ==> m[key][i] in books && FiledUnder(m[key][i], key))
      && (forall key :: key in m ==> m[key] != [] && NoDuplicates(m[key]))
  {
    ItemsSpec(books);
    GroupedSpec(Items(books));
    BooksGrouped(books, Items(books), Grouped(Items(books)));
    GroupsFiled(books, Items(books), Grouped(Items(books)));
  }

  /** Every book lands in the group of each of its pairs. */
  lemma BooksGrouped(books: seq<Book>, items: seq<Item>, m: map<string, seq<Book>>)
    requires GroupsOf(items, m)
    requires forall j, x :: 0 <= j < |books| && x in ItemsOf(books[j]) ==> x in items
    ensures forall j :: 0 <= j < |books| && books[j].genres == [] ==> NoGenre in m && books[j] in m[NoGenre]
    ensures forall j, k :: 0 <= j < |books| && 0 <= k < |books[j].genres| ==>
      GroupKey(books[j].genres[k].name) in m && books[j] in m[GroupKey(books[j].genres[k].name)]
  {
    forall j | 0 <= j < |books| && books[j].genres == [] ensures NoGenre in m && books[j] in m[NoGenre] {
      ItemsOfSpec(books[j]);
      FiledFromItem(items, m, Item(NoGenre, books[j]));
    }
    forall j, k | 0 <= j < |books| && 0 <= k < |books[j].genres|
      ensures GroupKey(books[j].genres[k].name) in m && books[j] in m[GroupKey(books[j].genres[k].name)]
    {
      ItemsOfSpec(books[j]);
      FiledFromItem(items, m, Item(books[j].genres[k].name, books[j]));
    }
  }

  /** Every grouped book is a listed book filed under the group's key; no group
      is empty. */
  lemma GroupsFiled(books: seq<Book>, items: seq<Item>, m: map<string, seq<Book>>)
    requires GroupsOf(items, m)
    requires forall i :: 0 <= i < |items| ==> items[i].book in books && items[i] in ItemsOf(items[i].book)
    ensures forall key, i :: key in m && 0 <= i < |m[key]| ==> m[key][i] in books && FiledUnder(m[key][i], key)
    ensures forall key :: key in m ==> m[key] != [] && NoDuplicates(m[key])
  {
    forall key, i | key in m && 0 <= i < |m[key]| ensures m[key][i] in books && FiledUnder(m[key][i], key) {
      assert HasKey(items, Filing, (key, m[key][i]));
      var n :| 0 <= n < |items| && Filing(items[n]) == (key, m[key][i]);
      ItemsOfSpec(items[n].book);
    }
    forall key | key in m ensures m[key] != [] {
      var n :| 0 <= n < |items| && ItemKey(items[n]) == key;
      assert Filing(items[n]) == (key, items[n].book);
      assert items[n].book in m[key];
    }
  }

  /** A pair present among the pairs puts its book in its key's group. */
  lemma FiledFromItem(items: seq<Item>, m: map<string, seq<Book>>, x: Item)
    requires x in items && GroupsOf(items, m)
    ensures GroupKey(x.genre) in m && x.book in m[GroupKey(x.genre)]
  {
    var n :| 0 <= n < |items| && items[n] == x;
    assert ItemKey(items[n]) == GroupKey(x.genre);
    assert Filing(items[n]) == (GroupKey(x.genre), x.book);
  }
}
