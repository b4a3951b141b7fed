# Book catalogue persistence, modelled in Dafny

BookManagementSystem keeps a catalogue of books and genres in SQLite. A book has
a title, an author, a year and a list of genres, and books and genres are linked
many-to-many through the `BookGenres` table. Two interchangeable repositories
implement the same interface over that schema:

- `EfBookRepository` works through an Entity Framework tracked context. It
  resolves genre names against the stored genres ignoring case, so case
  variants are merged.
- `DapperBookRepository` issues SQL statements in a transaction. It inserts
  names with insert-or-ignore and then keys a dictionary by name ignoring case.

`DbInitializer.EnsureCreated` seeds five books when the books table is empty.
`BookService` is the facade the user interface calls: creation through the
`Book` constructor, the fallback from a blank search to the full list, the
orderings, the author suggestions and the grouping of books by genre.

The model is one Dafny module per concern:

- `Text`: white space, `Trim`, the case fold standing for
  `CurrentCultureIgnoreCase`, containment and ordinal order.
- `Seqs`: the LINQ stages `Where`, `Distinct` with a comparer (first element of
  each key kept) and the stable `OrderBy`.
- `GenreNames`: the clean-up of genre names (blank names dropped, the others
  trimmed) and its normalisation (case variants merged).
- `Entities`: `Book` and `Genre` as values, the `Book` constructor and
  `GenresDisplay`.
- `Schema`: the store. It has rows for `Books` and `Genres`, the `BookGenres`
  link set, and the AUTOINCREMENT counters. It also states what the schema
  enforces (keys, the unique name index, foreign keys, cascades) and provides
  the statements both repositories use.
- `Queries`: the search by author or title shared by both repositories.
- `EfRepo`: the tracked-context repository. It has pure functions for each
  operation and a class `EfBookRepository` whose methods update the store they
  own. `ResolveGenres` is a loop over the normalised names.
- `DapperRepo`: the SQL repository. It has pure functions and a class
  `DapperBookRepository`, with `EnsureGenreIds`, the link-insert loop of
  `ReplaceGenres`, and `AttachGenres` as a loop over an array of books.
- `Seeding`: `EnsureCreated` with its genre-cache build loop and the all-or-
  nothing `SaveChanges`. It also holds the reseeding failure described under
  Findings, and a corrected seeding.
- `Divergence`: lemmas on inputs where the two repositories behave differently.
- `Service`: `BookService` over either repository, as pure functions of the
  store.

A failed SQL statement or a refused `SaveChanges` is an `Err` result, and the
store is left unchanged (the transaction is rolled back). The current culture's
case-insensitive comparer is modelled as a fixed fold: Latin A-Z and the
Cyrillic capitals U+0400..U+042F map to lower case. Default string ordering
(`OrderBy(b => b.Title)`, SQL `ORDER BY Name`) is modelled as ordinal order.

## Model

| member | source | states |
|---|---|---|
| Text.IsBlankIff | Domain/Entities/Book.cs:62 | `IsNullOrWhiteSpace` holds exactly when every character is white space |
| Text.TrimIsSlice | Domain/Entities/Book.cs:63 | `Trim` keeps one contiguous slice with no white space at either end, and everything it drops is white space |
| Text.TrimEmptyIffBlank | Domain/Entities/Book.cs:62-63 | trimming gives the empty string exactly for blank input |
| Text.TrimIdempotent | Domain/Entities/Book.cs:63 | trimming twice is trimming once, and a trimmed non-blank name stays non-blank |
| Text.FoldIdempotent | DataAccessLayer/Repositories/EfBookRepository.cs:178 | the case-insensitive key of a key is itself, and folding keeps white space in place |
| Text.FoldKeepsBlankness | DataAccessLayer/Repositories/EfBookRepository.cs:176-178 | a name and its key are blank, and trimmed, together |
| Seqs.Filter | DataAccessLayer/Repositories/EfBookRepository.cs:75-76 | `Where` keeps only elements that pass and keeps every element that passes |
| Seqs.FilterAppend | DataAccessLayer/Repositories/EfBookRepository.cs:75-76 | `Where` works element by element, so it keeps the input order |
| Seqs.SortBySorted | DataAccessLayer/Repositories/EfBookRepository.cs:77 | `OrderBy` under a total preorder returns an ascending permutation of its input |
| Seqs.SortByStable | DataAccessLayer/Repositories/EfBookRepository.cs:77 | `OrderBy` is stable: elements that compare equal keep their input order |
| Seqs.SortByOfSorted | BusinessLogicLayer/Services/BookService.cs:34 | ordering a list that is already ascending leaves it unchanged |
| Seqs.DistinctOnSpec | DataAccessLayer/Repositories/EfBookRepository.cs:178 | `Distinct(comparer)` keeps only input elements, keeps one element for every key present, and never two with the same key |
| Seqs.DistinctOnKeepsFirst | DataAccessLayer/Repositories/EfBookRepository.cs:178 | each kept element is the first input element with its key, in order of first occurrence |
| Seqs.DistinctOnOfDistinct | DataAccessLayer/Repositories/EfBookRepository.cs:178 | `Distinct` leaves a key-distinct list as it is, so applying it twice is applying it once |
| Seqs.SameKeysSameLength | DataAccessLayer/Seeding/DbInitializer.cs:42-46 | two key-distinct lists with the same keys have the same length |
| Seqs.FilterKeysDistinct | DataAccessLayer/Repositories/DapperBookRepository.cs:184-186 | filtering a key-distinct list keeps it key-distinct |
| GenreNames.CleanNamesAllClean | Domain/Entities/Book.cs:61-64 | every name the clean-up stage yields is trimmed and non-blank |
| GenreNames.CleanNamesAppend | Domain/Entities/Book.cs:61-64 | the clean-up works name by name: it commutes with concatenation, and a single name is dropped exactly when blank, else trimmed |
| GenreNames.CleanNamesOfClean | Domain/Entities/Book.cs:61-64 | names that are already clean pass through unchanged |
| GenreNames.CleanNamesIdempotent | DataAccessLayer/Repositories/DapperBookRepository.cs:199-201 | cleaning the constructor's already cleaned names again changes nothing |
| GenreNames.CleanNamesCovers | Domain/Entities/Book.cs:61-64 | every non-blank input name survives, trimmed |
| GenreNames.CleanNamesFrom | Domain/Entities/Book.cs:61-64 | every output name is the trimmed form of a non-blank input name |
| GenreNames.NormalizeSpec | DataAccessLayer/Repositories/EfBookRepository.cs:175-179 | the normalised names are clean, pairwise different ignoring case, each the first spelling of its key among the cleaned names in first-occurrence order, and they cover every non-blank input |
| GenreNames.NormalizeIdempotent | DataAccessLayer/Repositories/DapperBookRepository.cs:278-282 | normalising normalised names changes nothing |
| GenreNames.NormalizeEmptyIffAllBlank | DataAccessLayer/Repositories/EfBookRepository.cs:181-184 | nothing survives normalisation exactly when every input name is blank |
| GenreNames.NormalizeSameKeyPair | DataAccessLayer/Repositories/EfBookRepository.cs:178 | of two clean names equal ignoring case, normalisation keeps only the first |
| GenreNames.SortNormalizedSpec | DataAccessLayer/Repositories/EfBookRepository.cs:218-223 | the normalised names ordered ignoring case are clean, pairwise different ignoring case, ascending, and cover every non-blank input |
| GenreNames.PermutationKeepsNames | BusinessLogicLayer/Services/BookService.cs:146-149 | reordering clean, key-distinct names keeps them clean and key-distinct, with the same keys |
| Entities.DefaultBook | Domain/Entities/Book.cs:12-47 | `new Book()` has ID 0, empty title and author, year 0 and no genres |
| Entities.NewBook | Domain/Entities/Book.cs:56-65 | the constructor copies title, author and year, leaves ID 0, and makes one unsaved genre per cleaned name, in input order |
| Entities.NewBookGenresAreClean | Domain/Entities/Book.cs:61-64 | a constructed book's genre names are trimmed and non-blank, so cleaning them again changes nothing |
| Entities.NewBookKeepsCleanNames | Domain/Entities/Book.cs:61-64 | the constructor does not deduplicate: clean names are all kept, case variants included |
| Entities.NewBookKeepsCaseVariants | Domain/Entities/Book.cs:61-64 | "Drama" and "drama" both survive the constructor |
| Entities.GenresDisplayListsNames | Domain/Entities/Book.cs:38-40 | a book with genres shows every genre name |
| Entities.GenresDisplayPlaceholderIff | Domain/Entities/Book.cs:38-40 | the display is "Без жанра" exactly when the book has no genres or its only genre has that name |
| Entities.GenresDisplaySingle | Domain/Entities/Book.cs:38-40 | a single genre is shown as its bare name |
| Entities.GenresDisplayAppend | Domain/Entities/Book.cs:38-40 | one more genre appends ", " and its name to the display, so the display is the names in order separated by ", " |
| Schema.EmptyStoreValid | DataAccessLayer/Contexts/BookDbContext.cs:32-84 | the empty database satisfies every schema constraint |
| Schema.InsertBookValid | DataAccessLayer/Contexts/BookDbContext.cs:37-40 | inserting a book keeps the store valid and hands out an ID no row had |
| Schema.InsertGenreValid | DataAccessLayer/Contexts/BookDbContext.cs:57-61 | a genre insert the unique index admits keeps names unique and the store valid |
| Schema.InsertGenreOrIgnoreSpec | DataAccessLayer/Repositories/DapperBookRepository.cs:289-293 | insert-or-ignore keeps the store valid and leaves exactly one row with the name, the old row when there was one; either way it uses up one AUTOINCREMENT genre ID, because SQLite draws the rowid before it meets the conflict |
| Schema.InsertLinkValid | DataAccessLayer/Contexts/BookDbContext.cs:64-81 | a link insert the composite key and the foreign keys admit keeps the store valid and adds exactly that link |
| Schema.DeleteBookSpec | DataAccessLayer/Contexts/BookDbContext.cs:73-76 | deleting a book removes exactly its links by the cascade, keeps every genre row, and keeps the store valid |
| Schema.DeleteByIdSpec | DataAccessLayer/Repositories/EfBookRepository.cs:43-54 | deleting by ID reports whether the book existed, changes nothing when it did not, and otherwise removes exactly the book and its links |
| Schema.DeleteGenreSpec | DataAccessLayer/Contexts/BookDbContext.cs:69-72 | deleting a genre removes exactly its links and keeps every book row |
| Schema.DeleteLinksOfSpec | DataAccessLayer/Repositories/DapperBookRepository.cs:209-213 | deleting a book's links leaves it with none and touches no other book's links |
| Schema.GenreListSpec | DataAccessLayer/Repositories/EfBookRepository.cs:186 | the genre scan lists every row once; it is taken in ascending ID order, a fixed choice for a query without `ORDER BY` |
| Schema.LinkedGenresSpec | DataAccessLayer/Repositories/EfBookRepository.cs:114 | a book's loaded genres are exactly the rows its links name, each once |
| Schema.BookIdsSpec | DataAccessLayer/Repositories/DapperBookRepository.cs:119 | `ORDER BY ID` lists every book ID once, ascending |
| Queries.FindInSpec | DataAccessLayer/Repositories/EfBookRepository.cs:61-79 | a search is empty for a blank fragment; otherwise it is exactly the books whose field contains the trimmed fragment ignoring case, ordered by title, with equal titles in loaded order |
| Queries.FindInIgnoresPaddingAndCase | DataAccessLayer/Repositories/EfBookRepository.cs:68-76 | fragments that differ only in surrounding white space or in case find the same books |
| EfRepo.FirstFoldIndex | DataAccessLayer/Repositories/EfBookRepository.cs:191-192 | `FirstOrDefault` finds the first genre whose name equals the name ignoring case, and no earlier genre matches |
| EfRepo.ResolveSpec | DataAccessLayer/Repositories/EfBookRepository.cs:173-205 | one genre per normalised name, in order: the first genre of the scan (taken by ascending ID) matching ignoring case, else a new genre with a fresh ID named as the normalised name; no two results share an ID; with no surviving name nothing changes |
| EfRepo.ResolveScanIndependent | DataAccessLayer/Repositories/EfBookRepository.cs:186-199 | when stored names are unique ignoring case, as this repository keeps them, each name reuses the only stored row equal to it ignoring case, and gets a new row named as itself when there is none, whatever the scan order |
| EfRepo.ResolveValid | DataAccessLayer/Repositories/EfBookRepository.cs:173-205 | resolution keeps the store valid, only adds genre rows, resolves to rows of the new store, and keeps names unique ignoring case when they were |
| EfRepo.ResolvedAsDistinct | DataAccessLayer/Repositories/EfBookRepository.cs:189-202 | two names that differ ignoring case never resolve to the same genre |
| EfRepo.NoMatchNoRow | DataAccessLayer/Repositories/EfBookRepository.cs:191-199 | a name with no match, different from every name resolved before it, matches no row of the grown store either |
| EfRepo.LinkedSpec | DataAccessLayer/Repositories/EfBookRepository.cs:33-34 | linking a stored book to stored genres keeps the store valid, adds exactly those links and touches no other book |
| EfRepo.AddedSpec | DataAccessLayer/Repositories/EfBookRepository.cs:29-36 | `Add` never fails; it stores the row under the next ID, links the book to exactly the resolved genres, and leaves every other book, link and genre row alone |
| EfRepo.UpdatedSpec | DataAccessLayer/Repositories/EfBookRepository.cs:137-152 | `Update` of an absent ID returns false and changes nothing; otherwise it overwrites the row, replaces the book's links by links to the resolved genres, keeps all else, and returns true |
| EfRepo.UpdateKeepsMatchingGenre | DataAccessLayer/Repositories/EfBookRepository.cs:157-166 | when names are unique ignoring case, updating with a name matching a current genre ignoring case keeps the link to that same genre |
| EfRepo.GetAllSpec | DataAccessLayer/Repositories/EfBookRepository.cs:110-117 | `GetAll` lists each stored book once, ascending by ID, with its row and genres |
| EfRepo.GetAllGenresSpec | DataAccessLayer/Repositories/EfBookRepository.cs:211-224 | the genre names are clean, pairwise different ignoring case, ascending ignoring case, and cover every non-blank stored name |
| EfRepo.AddedThenGetById | DataAccessLayer/Repositories/EfBookRepository.cs:124-130 | reading back an added book gives its title, author, year and exactly the genres `Add` returned |
| EfRepo.UpdatedThenGetById | DataAccessLayer/Repositories/EfBookRepository.cs:137-152 | reading back an updated book gives the new fields and exactly the resolved genres |
| EfRepo.EfBookRepository.ResolveGenres | DataAccessLayer/Repositories/EfBookRepository.cs:173-205 | the loop computes the resolution, with the store gaining exactly the genres it creates |
| EfRepo.EfBookRepository.UpdateGenres | DataAccessLayer/Repositories/EfBookRepository.cs:157-166 | the genre collection is cleared and refilled with the resolved genres |
| EfRepo.EfBookRepository.Add | DataAccessLayer/Repositories/EfBookRepository.cs:29-36 | the method's new store and returned entity are those of `Add` |
| EfRepo.EfBookRepository.Update | DataAccessLayer/Repositories/EfBookRepository.cs:137-152 | the method's new store and result are those of `Update` |
| EfRepo.EfBookRepository.Delete | DataAccessLayer/Repositories/EfBookRepository.cs:43-54 | the method's new store and result are those of deleting by ID |
| DapperRepo.ExtractGenreNamesSpec | DataAccessLayer/Repositories/DapperBookRepository.cs:197-202 | the extracted names are clean, duplicates kept, and every non-blank genre name is among them trimmed |
| DapperRepo.ExtractFromNewBook | DataAccessLayer/Repositories/DapperBookRepository.cs:197-202 | for a constructed book the extracted names are exactly the cleaned constructor arguments |
| DapperRepo.InsertAllSpec | DataAccessLayer/Repositories/DapperBookRepository.cs:289-293 | the inserts keep the store valid, keep every row, leave a row named exactly like each name, and add a row only for a name not stored exactly |
| DapperRepo.FoldDictionarySpec | DataAccessLayer/Repositories/DapperBookRepository.cs:295-297 | the case-insensitive dictionary is built exactly when no two rows share a key, and then maps each row's key to its ID |
| DapperRepo.EnsuredIdsSpec | DataAccessLayer/Repositories/DapperBookRepository.cs:276-298 | `EnsureGenreIds` never fails, keeps all rows and IDs, adds rows only for normalised names not stored exactly, and maps the key of each normalised name to the row named exactly so |
| DapperRepo.LinkEachSpec | DataAccessLayer/Repositories/DapperBookRepository.cs:223-232 | from a book without links the inserts succeed exactly when no two names share a key, and then add exactly the links aimed at |
| DapperRepo.LinkEachErrSticks | DataAccessLayer/Repositories/DapperBookRepository.cs:223-232 | once a link insert fails, the rest of the loop does not run |
| DapperRepo.ReplacedSpec | DataAccessLayer/Repositories/DapperBookRepository.cs:207-233 | `ReplaceGenres` fails with a duplicate link exactly when two extracted names are equal ignoring case; on success the book is linked to exactly the rows named like its names |
| DapperRepo.AddedSpec | DataAccessLayer/Repositories/DapperBookRepository.cs:32-52 | `Add` succeeds exactly when the extracted names are pairwise different ignoring case; it then stores the row under the next ID and links exactly the rows named like the names; a failure leaves the store unchanged |
| DapperRepo.UpdatedSpec | DataAccessLayer/Repositories/DapperBookRepository.cs:150-173 | `Update` of an absent ID returns false and changes nothing; otherwise it succeeds exactly when the names are pairwise different ignoring case, overwriting the row and relinking; a failure leaves the store unchanged |
| DapperRepo.AttachedGenresSpec | DataAccessLayer/Repositories/DapperBookRepository.cs:246-258 | a book's attached genres are exactly its linked rows, each once, ordered by name |
| DapperRepo.GenreLookupSpec | DataAccessLayer/Repositories/DapperBookRepository.cs:260-269 | the per-book lookup built from the linked rows gives each fetched book exactly its attached genres |
| DapperRepo.BookRows | DataAccessLayer/Repositories/DapperBookRepository.cs:119-121 | the row query gives one book per stored ID, in the ascending order of the ID query |
| DapperRepo.ListAllSpec | DataAccessLayer/Repositories/DapperBookRepository.cs:117-124 | `GetAll` lists each stored book once, ascending by ID, with its row and its genres ordered by name |
| DapperRepo.GetAllGenresSpec | DataAccessLayer/Repositories/DapperBookRepository.cs:179-188 | the genre names are clean, pairwise different ignoring case, cover every non-blank stored name, and each is the trimmed form of a stored name |
| DapperRepo.GetAllGenresOrdinalOrder | DataAccessLayer/Repositories/DapperBookRepository.cs:181-187 | the list is ordinal, not case-insensitive: with rows "a" and "Z" it starts with "Z" |
| DapperRepo.DapperBookRepository.EnsureGenreIds | DataAccessLayer/Repositories/DapperBookRepository.cs:276-298 | the method's new store and dictionary are those of `EnsureGenreIds` |
| DapperRepo.DapperBookRepository.LinkAll | DataAccessLayer/Repositories/DapperBookRepository.cs:223-232 | the link loop gives the result of the link inserts |
| DapperRepo.DapperBookRepository.ReplaceGenres | DataAccessLayer/Repositories/DapperBookRepository.cs:207-233 | the method gives the result of `ReplaceGenres` |
| DapperRepo.DapperBookRepository.AttachGenres | DataAccessLayer/Repositories/DapperBookRepository.cs:238-271 | every listed book in the array gets its attached genres and keeps its other fields |
| DapperRepo.DapperBookRepository.GetAll | DataAccessLayer/Repositories/DapperBookRepository.cs:117-124 | the method returns the listing of the store |
| DapperRepo.DapperBookRepository.GetById | DataAccessLayer/Repositories/DapperBookRepository.cs:131-143 | the method returns the stored book under the ID, with its genres, or nothing |
| DapperRepo.DapperBookRepository.FindByAuthor | DataAccessLayer/Repositories/DapperBookRepository.cs:72-89 | the method returns the author search over the listing |
| DapperRepo.DapperBookRepository.FindByTitle | DataAccessLayer/Repositories/DapperBookRepository.cs:96-111 | the method returns the title search over the listing |
| DapperRepo.DapperBookRepository.Add | DataAccessLayer/Repositories/DapperBookRepository.cs:32-52 | the method's new store and result are those of `Add` |
| DapperRepo.DapperBookRepository.Update | DataAccessLayer/Repositories/DapperBookRepository.cs:150-173 | the method's new store and result are those of `Update` |
| DapperRepo.DapperBookRepository.Delete | DataAccessLayer/Repositories/DapperBookRepository.cs:59-65 | the method's new store and result are those of deleting by ID |
| Seeding.PickSpec | DataAccessLayer/Seeding/DbInitializer.cs:42-46 | one cache lookup keeps the cache consistent, creates a genre exactly when no cached name has the key, and yields a genre with the same key |
| Seeding.PickAllSpec | DataAccessLayer/Seeding/DbInitializer.cs:40-49 | the inner loop keeps the cache consistent, keeps the first spelling of each key met so far, and picks a genre with the same key for every name |
| Seeding.PlanCreatesSeven | DataAccessLayer/Seeding/DbInitializer.cs:29-46 | the eight genre names of the seed data give seven new genres, the two mentions of "Роман" sharing one |
| Seeding.SeedGenresKeysDistinct | DataAccessLayer/Seeding/DbInitializer.cs:31-35 | the seven seed genres differ pairwise ignoring case |
| Seeding.PlanSpec | DataAccessLayer/Seeding/DbInitializer.cs:37-53 | the build creates one genre per key among all seed genre names, first spelling kept, and every seed book gets the created genre for each of its names |
| Seeding.InsertGenresSpec | DataAccessLayer/Seeding/DbInitializer.cs:55-56 | inserting pairwise different names succeeds exactly when none is stored, adding them under consecutive new IDs; a failure names the first stored one |
| Seeding.SeedLinksSpec | DataAccessLayer/Seeding/DbInitializer.cs:48 | each seed book is linked to exactly the new genres it names, up to case |
| Seeding.SeedSpec | DataAccessLayer/Seeding/DbInitializer.cs:18-57 | seeding a store without books succeeds exactly when no created genre name is already stored, a failure names the first stored one, and a success leaves a valid store of the seeded shape |
| Seeding.SeededKeepsNonEmpty | DataAccessLayer/Seeding/DbInitializer.cs:22-25 | a store with a book is left alone |
| Seeding.SeededIdempotent | DataAccessLayer/Seeding/DbInitializer.cs:22-25 | after a successful seeding a second run changes nothing |
| Seeding.SeededFresh | DataAccessLayer/Seeding/DbInitializer.cs:18-57 | seeding a store with neither books nor genres succeeds, with the seeded shape and names unique ignoring case |
| Seeding.SeededEmptyStore | DataAccessLayer/Seeding/DbInitializer.cs:18-57 | seeding the empty database succeeds, with the seeded shape and names unique ignoring case |
| Seeding.SeededSharedGenre | DataAccessLayer/Seeding/DbInitializer.cs:27-46 | two seed books naming genres equal ignoring case are linked to one shared genre row |
| Seeding.SeededShareRoman | DataAccessLayer/Seeding/DbInitializer.cs:32-34 | the second and fourth seed books share the one genre row created for "Роман" |
| Seeding.AfterDeletingAllSpec | DataAccessLayer/Repositories/EfBookRepository.cs:43-54 | deleting every book leaves no book and no link and keeps every genre row |
| Seeding.ReseedFailsWith | DataAccessLayer/Seeding/DbInitializer.cs:22-56 | as written, seeding a fresh store, deleting every book and seeding again fails on the unique name index, naming a seed genre |
| Seeding.ReseedAfterDeletingAllFails | DataAccessLayer/Seeding/DbInitializer.cs:22-56 | the concrete case: seeding the empty database, deleting every book and starting again fails |
| Seeding.AddSeedsSpec | DataAccessLayer/Repositories/EfBookRepository.cs:29-36 | adding the seed books one by one through `Add` keeps the store valid, keeps names unique ignoring case when they were, keeps every stored book and genre row, and stores each seed book under the next ID |
| Seeding.SeededReusingWithSpec | DataAccessLayer/Seeding/DbInitializer.cs:22-56 | the corrected seeding never fails, keeps the store valid, names unique ignoring case when they were and every genre row, leaves a store with books alone, and stores every seed book when none was stored |
| Seeding.ReseedReusingWith | DataAccessLayer/Seeding/DbInitializer.cs:22-56 | after seeding a fresh store and deleting every book, the corrected seeding stores every seed book again |
| Seeding.ReseedReusingFrom | DataAccessLayer/Seeding/DbInitializer.cs:22-56 | for any valid store with names unique ignoring case, deleting every book and seeding with the corrected seeding stores every seed book |
| Seeding.BuildSeed | DataAccessLayer/Seeding/DbInitializer.cs:37-53 | the build loop over the seed books computes the planned genres and picks |
| Seeding.EnsureCreated | DataAccessLayer/Seeding/DbInitializer.cs:18-57 | the method's result is the seeding of the store |
| Divergence.CaseVariantNames | Domain/Entities/Book.cs:61-64 | a book built with "Drama" and "drama" keeps both names, and both repositories see them |
| Divergence.DapperRejectsCaseVariants | DataAccessLayer/Repositories/DapperBookRepository.cs:295-297 | the SQL repository refuses that book with a duplicate link and leaves the store unchanged |
| Divergence.EfMergesCaseVariants | DataAccessLayer/Repositories/EfBookRepository.cs:175-179 | the tracked-context repository stores the same book with one genre, matching "Drama" ignoring case |
| Divergence.DapperStoresCaseVariant | DataAccessLayer/Repositories/DapperBookRepository.cs:289-293 | with "Drama" stored, adding "drama" through SQL stores a second row, so names stop being unique ignoring case; the tracked context keeps them unique |
| Service.RepoGetAllSpec | Domain/Repositories/IBookRepository.cs:1-31 | either repository's `GetAll` lists each stored book once, ascending by ID, each as `GetById` reads it |
| Service.GetAllBooksSpec | BusinessLogicLayer/Services/BookService.cs:30-36 | `GetAllBooks` is ascending by ID, lists the store, and equals the repository's list because that is already ordered |
| Service.GetBookByIdSpec | BusinessLogicLayer/Services/BookService.cs:67-70 | a book is found exactly when a row has the ID; it then has that ID and row and is the book `GetAllBooks` lists |
| Service.DeleteBookSpec | BusinessLogicLayer/Services/BookService.cs:57-60 | deleting reports whether the book existed; afterwards it is not found, and every other book reads back as before |
| Service.CreateBookSpec | BusinessLogicLayer/Services/BookService.cs:46-50 | creation always succeeds over the tracked context, and over SQL exactly when the cleaned names differ ignoring case; a success stores the given fields under the next ID; a failure changes nothing |
| Service.CreateThenGetBook | BusinessLogicLayer/Services/BookService.cs:46-50 | a created book reads back with its fields; its genres are the resolved ones (tracked context) or exactly the rows named like the cleaned names (SQL) |
| Service.UpdateBookSpec | BusinessLogicLayer/Services/BookService.cs:81-85 | updating an absent ID returns false and changes nothing; otherwise the outcome is the repository's, and a success overwrites the row with the given fields |
| Service.UpdateThenGetBook | BusinessLogicLayer/Services/BookService.cs:81-85 | an updated book reads back with the new fields, and over SQL with exactly the rows named like the cleaned names |
| Service.FindBooksByAuthorSpec | BusinessLogicLayer/Services/BookService.cs:92-102 | a blank fragment gives every book ascending by ID; otherwise exactly the books whose author contains the trimmed fragment ignoring case, ordered by title |
| Service.FindBooksByTitleSpec | BusinessLogicLayer/Services/BookService.cs:128-138 | the same for titles |
| Service.GetAllGenresSpec | BusinessLogicLayer/Services/BookService.cs:144-150 | the names are the repository's, reordered ascending ignoring case; they are clean, pairwise different ignoring case, and cover every non-blank stored name |
| Service.GetAllGenresOfEf | BusinessLogicLayer/Services/BookService.cs:146-148 | over the tracked context the reordering changes nothing |
| Service.GetAllGenresOfDapper | BusinessLogicLayer/Services/BookService.cs:146-148 | over SQL each listed name is the trimmed form of a stored name |
| Service.SuggestSpec | BusinessLogicLayer/Services/BookService.cs:116-120 | the suggestions are non-blank authors of the listed books, pairwise different ignoring case, ascending ignoring case, and every non-blank author is suggested in some spelling |
| Service.GetAuthorSuggestionsSpec | BusinessLogicLayer/Services/BookService.cs:109-121 | the same in store terms: each suggestion is a stored book's author that contains a non-blank fragment, and every matching non-blank stored author is suggested up to case |
| Service.GroupedSpec | BusinessLogicLayer/Services/BookService.cs:167-171 | the groups' keys are exactly the items' keys, and a group lists exactly the books of the items with its key, each once |
| Service.ItemsSpec | BusinessLogicLayer/Services/BookService.cs:162-165 | the `SelectMany` items come from the listed books, as each book's genres say, and include every book's items |
| Service.GroupBooksByGenreSpec | BusinessLogicLayer/Services/BookService.cs:158-172 | a book without genres is under "Без жанра"; a book is under each genre name, a blank name counting as "Без жанра"; each grouped book is a listed book filed under one of its genres; no group is empty or lists a book twice |

## Left out

- Schema creation (`Database.EnsureCreated`), connection strings, the console and WinForms front ends, and configuration are I/O. They are not part of this model.
- Concurrency: each operation runs alone against one store. Two contexts or connections working at once are not modelled.
- Entity Framework's ordering of statements and IDs inside `SaveChanges` is a fixed choice: new genres, then books, then links, with consecutive IDs.
- Entity Framework imposes no order on a book's loaded genres. The model lists them by ascending genre ID.
- Schema.GenreList: the genre table is read without `ORDER BY`, so SQLite may return its rows in any order; the model fixes ascending ID. `EfRepo.GetAllGenres` sorts afterwards, so of its result only the spelling kept for stored names equal ignoring case depends on that choice.
- EfRepo.ResolveSpec: which stored row a name reuses is stated for the ascending-ID scan. When two stored names are equal ignoring case, which only the SQL repository can produce, another scan order could reuse the other row; `EfRepo.ResolveScanIndependent` states the order-free result for stores whose names are unique ignoring case.
- The culture-dependent comparer is a fixed case fold. Other cultures and culture-specific folds are not modelled.
- The declared maximum lengths (256 and 128) are stated as `Schema.WithinDeclaredLengths`, but SQLite does not enforce them, and no operation checks them.
- Foreign keys are taken as enforced. SQLite needs a pragma for that, and its setting is not part of this model.
- `Book.ToString` is text formatting only.
- `EfRepo.AddedSpec`: only the ID 0 that the service's constructor path produces is modelled. An entity passed in with a non-zero ID, which Entity Framework would insert under that explicit key, is not.
- `DapperRepo.Added`: the `(int)` cast of the 64-bit row ID is treated as exact. IDs beyond the 32-bit range are not modelled.
- `DapperRepo.Added`: on a failed insert the source has already set the entity's ID before the rollback. The model returns an error and does not keep that mutated entity.
- `DapperRepo.Added`: the returned entity keeps the genre objects it came with (IDs 0), as the source does. Their stored IDs are visible only by reading the book back.
- The Dapper constructor's call to `DbInitializer.EnsureCreated(connectionString)` is modelled by `Seeding.EnsureCreated` on the store. The constructor takes a store that was already opened.
- `Seeding.SeedSpec`: a seed book naming the same genre twice would be linked to it twice. No built-in seed book does that, so the case is not modelled as a failure.
- `Service.GroupBooksByGenreSpec`: `Distinct` on books is by reference in the source and by value in the model. Each listed book is a separate row with its own ID, so the two agree. The order of books inside a group is not stated.
- `Service.UpdateThenGetBook`: over the tracked context the genres read back are stated by `EfRepo.UpdatedThenGetById`. That lemma is not restated here.
- The repository interfaces (`IBookRepository`, `IRepository`) become the `Service.Backend` choice of implementation rather than an abstract type.

## Findings

| source | as written | input that shows it | evidently intended | confidence | as-written member | corrected member |
|---|---|---|---|---|---|---|
| DataAccessLayer/Seeding/DbInitializer.cs:22-56 | Seeding runs whenever the books table is empty. It inserts every seed genre as a new row, although deleting books keeps their genres. | Start on an empty database, which seeds it. Delete every book. Start again: inserting "Антиутопия" a second time violates the unique name index, so `SaveChanges` throws at every start-up. | Seeding an empty books table succeeds, and reuses genres that are already stored ignoring case. | not executed | Seeding.ReseedFailsWith | Seeding.ReseedReusingWith |
