/** The read-side pipelines both repositories share once the books are loaded:
    the search by a fragment of the author or the title (blank fragment gives
    nothing, otherwise a case-insensitive containment filter ordered by title),
    and the orderings by title and by ID. */
module Queries {
  import opened Text
  import opened Seqs
  import opened Entities

  /** `OrderBy(b => b.Title)`, with titles compared ordinally. */
  predicate TitleLe(a: Book, b: Book) {
    StringLe(a.title, b.title)
  }

  /** `OrderBy(b => b.ID)`. */
  predicate IdLe(a: Book, b: Book) {
    a.id <= b.id
  }

  lemma TitleLeTotalPreorder()
    ensures TotalPreorder(TitleLe)
  {
    forall a: Book, b: Book ensures TitleLe(a, b) || TitleLe(b, a) {
      StringLeTotal(a.title, b.title);
    }
    forall a: Book, b: Book, c: Book | TitleLe(a, b) && TitleLe(b, c) ensures TitleLe(a, c) {
      StringLeTransitive(a.title, b.title, c.title);
    }
  }

  lemma IdLeTotalPreorder()
    ensures TotalPreorder(IdLe)
  {
  }

  /** The field is non-blank and contains the needle, ignoring case. */
  predicate Matches(field: string, needle: string) {
    !IsBlank(field) && ContainsIgnoreCase(field, needle)
  }

  /** `FindByAuthor` / `FindByTitle` over loaded books: nothing for a blank
      fragment; otherwise the books whose field matches the trimmed fragment,
      ordered by title. */
  function FindIn(books: seq<Book>, fragment: string, field: Book -> string): seq<Book> {
    if IsBlank(fragment) then []
    else SortBy(Filter(books, b => Matches(field(b), Trim(fragment))), TitleLe)
  }

  function FindByAuthorIn(books: seq<Book>, author: string): seq<Book> {
    FindIn(books, author, (b: Book) => b.author)
  }

  function FindByTitleIn(books: seq<Book>, title: string): seq<Book> {
    FindIn(books, title, (b: Book) => b.title)
  }

  /** The search result is empty for a blank fragment; otherwise it holds exactly
      the matching books, as many times as they are loaded, ordered by title, with
      books of equal title in their loaded order. */
  lemma FindInSpec(books: seq<Book>, fragment: string, field: Book -> string)
    ensures IsBlank(fragment) ==> FindIn(books, fragment, field) == []
    ensures !IsBlank(fragment) ==>
      var r := FindIn(books, fragment, field);
      var matching := Filter(books, b => Matches(field(b), Trim(fragment)));
      && SortedBy(r, TitleLe)
      && multiset(r) == multiset(matching)
      && (forall i :: 0 <= i < |r| ==> r[i] in books && Matches(field(r[i]), Trim(fragment)))
      && (forall i :: 0 <= i < |books| && Matches(field(books[i]), Trim(fragment)) ==> books[i] in r)
      && (forall z :: Block(r, TitleLe, z) == Block(matching, TitleLe, z))
  {
    if !IsBlank(fragment) {
      var p := b => Matches(field(b), Trim(fragment));
      var matching := Filter(books, p);
      var r := SortBy(matching, TitleLe);
      TitleLeTotalPreorder();
      SortBySorted(matching, TitleLe);
      forall z ensures Block(r, TitleLe, z) == Block(matching, TitleLe, z) {
        SortByStable(matching, TitleLe, z);
      }
      forall i | 0 <= i < |r| ensures r[i] in books && p(r[i]) {
        assert r[i] in multiset(matching);
      }
      forall i | 0 <= i < |books| && p(books[i]) ensures books[i] in r {
        assert books[i] in multiset(r);
      }
    }
  }

  /** Searching a fragment and searching it with surrounding white space give the
      same books, and so do fragments that differ only in case. */
  lemma FindInIgnoresPaddingAndCase(books: seq<Book>, a: string, b: string, field: Book -> string)
    requires !IsBlank(a) && !IsBlank(b) && Fold(Trim(a)) == Fold(Trim(b))
    ensures FindIn(books, a, field) == FindIn(books, b, field)
  {
    var pa := x => Matches(field(x), Trim(a));
    var pb := x => Matches(field(x), Trim(b));
    FilterSameOn(books, pa, pb);
  }

  /** Filters with predicates that agree on the sequence give the same result. */
  lemma {:induction false} FilterSameOn<T>(xs: seq<T>, p: T -> bool, q: T -> bool)
    requires forall i :: 0 <= i < |xs| ==> p(xs[i]) == q(xs[i])
    ensures Filter(xs, p) == Filter(xs, q)
    decreases |xs|
  {
    if xs != [] {
      FilterSameOn(xs[..|xs| - 1], p, q);
    }
  }
}
