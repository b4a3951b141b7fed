/** The domain entities `Book` and `Genre` as values: the parameterised `Book`
    constructor with its genre-name clean-up, the defaults of a new `Book`, and
    the `GenresDisplay` text. */
module Entities {
  import opened Text
  import opened GenreNames

  /** A genre: its store-generated ID (0 until stored) and its name. The `Books`
      back-reference is represented by the store's link set instead. */
  datatype Genre = Genre(id: int, name: string)

  /** A book with its genres in list order. */
  datatype Book = Book(id: int, title: string, author: string, year: int, genres: seq<Genre>)

  /** The placeholder shown for a book without genres. */
  const NoGenre: string := "Без жанра"

  /** `new Book()`: every property at its declared default. */
  function DefaultBook(): (b: Book)
    ensures b.id == 0 && b.title == [] && b.author == [] && b.year == 0 && b.genres == []
  {
    Book(0, "", "", 0, [])
  }

  /** The names of a genre list, in list order. */
  function NamesOf(genres: seq<Genre>): (r: seq<string>)
    ensures |r| == |genres|
    ensures forall i :: 0 <= i < |genres| ==> r[i] == genres[i].name
  {
    if genres == [] then [] else NamesOf(genres[..|genres| - 1]) + [genres[|genres| - 1].name]
  }

  /** New, not yet stored genres for the given names. */
  function NewGenres(names: seq<string>): (r: seq<Genre>)
    ensures NamesOf(r) == names
    ensures forall i :: 0 <= i < |r| ==> r[i].id == 0
  {
    if names == [] then [] else NewGenres(names[..|names| - 1]) + [Genre(0, names[|names| - 1])]
  }

  /** `new Book(title, author, year, genres)`: the three fields copied as given,
      ID 0, and one new genre per non-blank name, trimmed, in input order. */
  function NewBook(title: string, author: string, year: int, names: seq<string>): (b: Book)
    ensures b.id == 0 && b.title == title && b.author == author && b.year == year
    ensures NamesOf(b.genres) == CleanNames(names)
    ensures forall i :: 0 <= i < |b.genres| ==> b.genres[i].id == 0
  {
    Book(0, title, author, year, NewGenres(CleanNames(names)))
  }

  /** The genres of a constructed book are trimmed and non-blank, so cleaning
      their names again changes nothing. */
  lemma NewBookGenresAreClean(title: string, author: string, year: int, names: seq<string>)
    ensures AllClean(NamesOf(NewBook(title, author, year, names).genres))
    ensures CleanNames(NamesOf(NewBook(title, author, year, names).genres))
         == NamesOf(NewBook(title, author, year, names).genres)
  {
    CleanNamesAllClean(names);
    CleanNamesIdempotent(names);
  }

  /** The constructor does not deduplicate: names that are already clean are all
      kept, case variants included. */
  lemma NewBookKeepsCleanNames(title: string, author: string, year: int, names: seq<string>)
    requires AllClean(names)
    ensures NamesOf(NewBook(title, author, year, names).genres) == names
  {
    CleanNamesOfClean(names);
  }

  /** "Drama" and "drama" both survive the constructor. */
  lemma NewBookKeepsCaseVariants()
    ensures NamesOf(NewBook("Title", "Author", 2000, ["Drama", "drama"]).genres) == ["Drama", "drama"]
  {
    var names := ["Drama", "drama"];
    assert !IsWhiteSpace(names[0][0]) && !IsWhiteSpace(names[0][4]);
    assert !IsWhiteSpace(names[1][0]) && !IsWhiteSpace(names[1][4]);
    assert AllClean(names) by {
      forall i | 0 <= i < 2 ensures IsTrimmed(names[i]) && !IsBlank(names[i]) {
        assert !IsWhiteSpace(names[i][0]);
      }
    }
    NewBookKeepsCleanNames("Title", "Author", 2000, names);
  }

  /** `string.Join(sep, names)`. */
  function Join(sep: string, names: seq<string>): string {
    if names == [] then ""
    else if |names| == 1 then names[0]
    else Join(sep, names[..|names| - 1]) + sep + names[|names| - 1]
  }

  /** `GenresDisplay`: the genre names joined by ", ", or the placeholder when the
      book has no genres. */
  function GenresDisplay(b: Book): string {
    if b.genres != [] then Join(", ", NamesOf(b.genres)) else NoGenre
  }

  lemma JoinedOccurs(a: string, p: string, c: string)
    ensures Occurs(p, a + p + c)
  {
    assert (a + p + c)[|a|..|a| + |p|] == p;
    assert SliceAt(a + p + c, |a|, p);
    OccursIffSlice(p, a + p + c);
  }

  lemma OccursInPrefix(p: string, s: string, t: string)
    requires Occurs(p, s)
    ensures Occurs(p, s + t)
  {
    OccursIffSlice(p, s);
    var k :| SliceAt(s, k, p);
    assert (s + t)[k..k + |p|] == s[k..k + |p|];
    assert SliceAt(s + t, k, p);
    OccursIffSlice(p, s + t);
  }

  /** Every joined name occurs in the joined text. */
  lemma {:induction false} JoinContainsEach(sep: string, names: seq<string>)
    ensures forall i :: 0 <= i < |names| ==> Occurs(names[i], Join(sep, names))
    decreases |names|
  {
    if |names| == 1 {
      JoinedOccurs("", names[0], "");
      assert "" + names[0] + "" == names[0];
    } else if |names| > 1 {
      var init := names[..|names| - 1];
      var last := names[|names| - 1];
      JoinContainsEach(sep, init);
      JoinedOccurs(Join(sep, init) + sep, last, "");
      assert Join(sep, init) + sep + last + "" == Join(sep, names);
      forall i | 0 <= i < |init| ensures Occurs(names[i], Join(sep, names)) {
        assert init[i] == names[i];
        OccursInPrefix(names[i], Join(sep, init), sep + last);
        assert Join(sep, init) + (sep + last) == Join(sep, names);
      }
    }
  }

  /** Joining two or more names puts the separator's first character in the text. */
  lemma {:induction false} JoinHasSeparator(sep: string, names: seq<string>)
    requires |names| >= 2 && sep != []
    ensures sep[0] in Join(sep, names)
    decreases |names|
  {
    var s := Join(sep, names[..|names| - 1]) + sep + names[|names| - 1];
    assert s[|Join(sep, names[..|names| - 1])|] == sep[0];
  }

  lemma NoGenreHasNoComma()
    ensures ',' !in NoGenre
  {
    assert NoGenre == ['Б', 'е', 'з', ' ', 'ж', 'а', 'н', 'р', 'а'];
  }

  /** A book with genres shows every genre name. */
  lemma GenresDisplayListsNames(b: Book)
    requires b.genres != []
    ensures forall i :: 0 <= i < |b.genres| ==> Occurs(b.genres[i].name, GenresDisplay(b))
  {
    JoinContainsEach(", ", NamesOf(b.genres));
  }

  /** Adding a genre to a book that has some appends ", " and its name to the
      display: together with `GenresDisplaySingle` this says the display is the
      names in order, separated by ", ". */
  lemma GenresDisplayAppend(b: Book, g: Genre)
    requires b.genres != []
    ensures GenresDisplay(b.(genres := b.genres + [g])) == GenresDisplay(b) + ", " + g.name
  {
    var gs := b.genres + [g];
    assert gs[..|gs| - 1] == b.genres;
    assert NamesOf(gs) == NamesOf(b.genres) + [g.name];
    var ns := NamesOf(gs);
    assert ns[..|ns| - 1] == NamesOf(b.genres);
  }

  /** The display is the placeholder exactly when the book has no genres or its
      only genre is itself named like the placeholder; so for books whose genres
      avoid that one name, "no genres" and "placeholder shown" coincide. */
  lemma GenresDisplayPlaceholderIff(b: Book)
    ensures GenresDisplay(b) == NoGenre <==> b.genres == [] || NamesOf(b.genres) == [NoGenre]
  {
    if |b.genres| >= 2 {
      JoinHasSeparator(", ", NamesOf(b.genres));
      NoGenreHasNoComma();
    }
  }

  /** A single genre is shown as its bare name. */
  lemma GenresDisplaySingle(b: Book)
    requires |b.genres| == 1
    ensures GenresDisplay(b) == b.genres[0].name
  {
  }
}
