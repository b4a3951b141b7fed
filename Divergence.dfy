/** Where the two repositories disagree on the same input. The tracked-context
    repository matches genre names ignoring case everywhere, so it merges case
    variants and never stores two names equal ignoring case. The SQL repository
    matches names exactly in the store but keys its dictionary ignoring case, so
    case variants in one book abort the call, and a case variant of a stored name
    becomes a second row. */
module Divergence {
  import opened Text
  import opened Seqs
  import opened GenreNames
  import opened Entities
  import opened Schema
  import EfRepo
  import DapperRepo

  /** The two spellings used below are clean and equal ignoring case. */
  lemma DramaSpellings()
    ensures AllClean(["Drama", "drama"]) && AllClean(["drama"])
    ensures Fold("Drama") == Fold("drama") && "Drama" != "drama"
  {
    var names := ["Drama", "drama"];
    forall i | 0 <= i < 2 ensures IsTrimmed(names[i]) && !IsBlank(names[i]) {
      assert !IsWhiteSpace(names[i][0]) && !IsWhiteSpace(names[i][4]);
    }
    assert ["drama"][0] == names[1];
    // The spellings differ only in the first letter, which folds 'D' to 'd'.
    assert FoldChar(names[0][0]) == FoldChar(names[1][0]);
    forall i | 1 <= i < 5 ensures FoldChar(names[0][i]) == FoldChar(names[1][i]) {
      assert names[0][i] == names[1][i];
    }
    FoldCharwise(names[0], names[1]);
  }

  /** A book built with the genres "Drama" and "drama". */
  function CaseVariantBook(title: string, author: string, year: int): Book {
    NewBook(title, author, year, ["Drama", "drama"])
  }

  /** The constructor keeps both spellings and both repositories see them. */
  lemma CaseVariantNames(title: string, author: string, year: int)
    ensures DapperRepo.ExtractGenreNames(CaseVariantBook(title, author, year)) == ["Drama", "drama"]
    ensures NamesOf(CaseVariantBook(title, author, year).genres) == ["Drama", "drama"]
    ensures !KeysDistinct(["Drama", "drama"], Fold)
  {
    DramaSpellings();
    CleanNamesOfClean(["Drama", "drama"]);
    DapperRepo.ExtractFromNewBook(title, author, year, ["Drama", "drama"]);
    assert ["Drama", "drama"][0] == "Drama" && ["Drama", "drama"][1] == "drama";
  }

  /** The SQL repository refuses the book: the second spelling maps to the same
      dictionary entry, so the second link is a duplicate key of BookGenres and
      the transaction is rolled back, leaving the store as it was. */
  lemma DapperRejectsCaseVariants(db: Store, title: string, author: string, year: int)
    requires Valid(db)
    ensures DapperRepo.Added(db, CaseVariantBook(title, author, year)).1.Err?
    ensures DapperRepo.Added(db, CaseVariantBook(title, author, year)).0 == db
  {
    CaseVariantNames(title, author, year);
    DapperRepo.AddedSpec(db, CaseVariantBook(title, author, year));
  }

  /** Normalising the two spellings keeps the first. */
  lemma NormalizeDrama()
    ensures Normalize(["Drama", "drama"]) == ["Drama"]
  {
    DramaSpellings();
    NormalizeSameKeyPair("Drama", "drama");
  }

  /** The tracked-context repository stores the same book with one genre, the
      first spelling resolved against the stored rows. */
  lemma EfMergesCaseVariants(db: Store, title: string, author: string, year: int)
    requires Valid(db)
    ensures |EfRepo.Added(db, CaseVariantBook(title, author, year)).1.genres| == 1
    ensures Fold(EfRepo.Added(db, CaseVariantBook(title, author, year)).1.genres[0].name) == Fold("Drama")
  {
    var b := CaseVariantBook(title, author, year);
    CaseVariantNames(title, author, year);
    NormalizeDrama();
    EfRepo.AddedSpec(db, b);
    EfRepo.ResolveSpec(db, NamesOf(b.genres));
  }

  /** Starting from a store whose names are unique ignoring case and which holds
      "Drama" but not "drama", adding a book with the genre "drama" succeeds in
      the SQL repository and leaves both spellings stored, so names are no longer
      unique ignoring case. The tracked-context repository keeps them unique. */
  lemma DapperStoresCaseVariant(db: Store, title: string, author: string, year: int)
    requires Valid(db) && FoldUnique(db.genres)
    requires HasGenreNamed(db, "Drama") && !HasGenreNamed(db, "drama")
    ensures var (d, r) := DapperRepo.Added(db, NewBook(title, author, year, ["drama"]));
      r.Ok? && HasGenreNamed(d, "Drama") && HasGenreNamed(d, "drama") && !FoldUnique(d.genres)
    ensures FoldUnique(EfRepo.Added(db, NewBook(title, author, year, ["drama"])).0.genres)
  {
    var b := NewBook(title, author, year, ["drama"]);
    DramaSpellings();
    CleanNamesOfClean(["drama"]);
    DapperRepo.ExtractFromNewBook(title, author, year, ["drama"]);
    assert DapperRepo.ExtractGenreNames(b) == ["drama"];
    DapperRepo.AddedSpec(db, b);
    EfRepo.AddedSpec(db, b);
    var (d, r) := DapperRepo.Added(db, b);
    var x :| x in db.genres && db.genres[x] == "Drama";
    assert ["drama"][0] == "drama";
    var y :| y in d.genres && d.genres[y] == "drama";
    assert d.genres[x] == "Drama" && x != y;
  }
}
