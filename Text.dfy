/** The string operations the persistence layer relies on, written out so that
    they are deterministic: `string.IsNullOrWhiteSpace`, `string.Trim`, one fixed
    case fold standing for `CurrentCultureIgnoreCase`, case-insensitive
    `Contains`, and ordinal ordering. */
module Text {

  /** The characters `char.IsWhiteSpace` accepts (the Unicode White_Space set). */
  predicate IsWhiteSpace(c: char) {
    c == ' ' || ('\t' <= c <= '\r') || c == '\U{0085}' || c == '\U{00A0}' || c == '\U{1680}'
    || ('\U{2000}' <= c <= '\U{200A}') || c == '\U{2028}' || c == '\U{2029}'
    || c == '\U{202F}' || c == '\U{205F}' || c == '\U{3000}'
  }

  /** `string.IsNullOrWhiteSpace`: empty or made of white space only. */
  predicate IsBlank(s: string)
    decreases |s|
  {
    s == [] || (IsWhiteSpace(s[0]) && IsBlank(s[1..]))
  }

  /** A string is blank exactly when every character of it is white space. */
  lemma {:induction false} IsBlankIff(s: string)
    ensures IsBlank(s) <==> forall i :: 0 <= i < |s| ==> IsWhiteSpace(s[i])
    decreases |s|
  {
    if s != [] {
      IsBlankIff(s[1..]);
      assert forall i :: 1 <= i < |s| ==> s[i] == s[1..][i - 1];
    }
  }

  /** Neither end of `s` is white space. */
  predicate IsTrimmed(s: string) {
    s == [] || (!IsWhiteSpace(s[0]) && !IsWhiteSpace(s[|s| - 1]))
  }

  /** Drops leading white space. */
  function TrimStart(s: string): string {
    if s != [] && IsWhiteSpace(s[0]) then TrimStart(s[1..]) else s
  }

  /** Drops trailing white space. */
  function TrimEnd(s: string): string {
    if s != [] && IsWhiteSpace(s[|s| - 1]) then TrimEnd(s[..|s| - 1]) else s
  }

  /** `TrimStart` keeps a suffix of `s`, everything it drops is white space, and
      what it keeps does not start with white space. */
  lemma {:induction false} TrimStartSpec(s: string)
    ensures |TrimStart(s)| <= |s| && TrimStart(s) == s[|s| - |TrimStart(s)|..]
    ensures forall i :: 0 <= i < |s| - |TrimStart(s)| ==> IsWhiteSpace(s[i])
    ensures TrimStart(s) != [] ==> !IsWhiteSpace(TrimStart(s)[0])
    decreases |s|
  {
    if s != [] && IsWhiteSpace(s[0]) {
      TrimStartSpec(s[1..]);
      forall i | 0 < i < |s| - |TrimStart(s)| ensures IsWhiteSpace(s[i]) {
        assert s[i] == s[1..][i - 1];
      }
    }
  }

  /** `TrimEnd` keeps a prefix of `s`, everything it drops is white space, and
      what it keeps does not end with white space. */
  lemma {:induction false} TrimEndSpec(s: string)
    ensures |TrimEnd(s)| <= |s| && TrimEnd(s) == s[..|TrimEnd(s)|]
    ensures forall i :: |TrimEnd(s)| <= i < |s| ==> IsWhiteSpace(s[i])
    ensures TrimEnd(s) != [] ==> !IsWhiteSpace(TrimEnd(s)[|TrimEnd(s)| - 1])
    decreases |s|
  {
    if s != [] && IsWhiteSpace(s[|s| - 1]) {
      TrimEndSpec(s[..|s| - 1]);
      forall i | |TrimEnd(s)| <= i < |s| - 1 ensures IsWhiteSpace(s[i]) {
        assert s[i] == s[..|s| - 1][i];
      }
    }
  }

  /** `string.Trim()`. */
  function Trim(s: string): string {
    TrimEnd(TrimStart(s))
  }

  /** Where the slice that `Trim` keeps starts. */
  function TrimOffset(s: string): nat {
    TrimStartSpec(s);
    |s| - |TrimStart(s)|
  }

  /** What `Trim` keeps is a contiguous slice of its input, trimmed at both ends,
      and everything around the slice is white space. */
  lemma TrimIsSlice(s: string)
    ensures TrimOffset(s) + |Trim(s)| <= |s|
    ensures Trim(s) == s[TrimOffset(s)..TrimOffset(s) + |Trim(s)|]
    ensures forall i :: 0 <= i < TrimOffset(s) ==> IsWhiteSpace(s[i])
    ensures forall i :: TrimOffset(s) + |Trim(s)| <= i < |s| ==> IsWhiteSpace(s[i])
    ensures IsTrimmed(Trim(s))
  {
    TrimSlice(s);
    TrimTrimmed(s);
  }

  lemma TrimSlice(s: string)
    ensures TrimOffset(s) + |Trim(s)| <= |s|
    ensures Trim(s) == s[TrimOffset(s)..TrimOffset(s) + |Trim(s)|]
    ensures forall i :: 0 <= i < TrimOffset(s) ==> IsWhiteSpace(s[i])
    ensures forall i :: TrimOffset(s) + |Trim(s)| <= i < |s| ==> IsWhiteSpace(s[i])
  {
    var a := TrimStart(s);
    var r := TrimEnd(a);
    TrimStartSpec(s);
    TrimEndSpec(a);
    var k := |s| - |a|;
    assert r == s[k..k + |r|] by {
      assert a[..|r|] == s[k..k + |r|];
    }
    forall i | k + |r| <= i < |s| ensures IsWhiteSpace(s[i]) {
      assert s[i] == a[i - k];
    }
  }

  lemma TrimTrimmed(s: string)
    ensures IsTrimmed(Trim(s))
  {
    var a := TrimStart(s);
    var r := TrimEnd(a);
    TrimStartSpec(s);
    TrimEndSpec(a);
    if r != [] {
      assert r[0] == a[0];
    }
  }

  /** Trimming yields nothing exactly when the input is blank. */
  lemma TrimEmptyIffBlank(s: string)
    ensures Trim(s) == [] <==> IsBlank(s)
  {
    TrimIsSlice(s);
    IsBlankIff(s);
    if !IsBlank(s) {
      var i :| 0 <= i < |s| && !IsWhiteSpace(s[i]);
      assert TrimOffset(s) <= i < TrimOffset(s) + |Trim(s)|;
    }
  }

  /** A trimmed string is left as it is. */
  lemma TrimOfTrimmed(s: string)
    requires IsTrimmed(s)
    ensures Trim(s) == s
  {
  }

  /** `Trim` is idempotent, and a trimmed non-blank string stays non-blank. */
  lemma TrimIdempotent(s: string)
    ensures Trim(Trim(s)) == Trim(s)
    ensures !IsBlank(s) ==> !IsBlank(Trim(s))
  {
    TrimIsSlice(s);
    TrimOfTrimmed(Trim(s));
    TrimEmptyIffBlank(s);
    if !IsBlank(s) {
      assert Trim(s) != [];
      assert !IsWhiteSpace(Trim(s)[0]);
    }
  }

  /** The fixed case fold standing for `CurrentCultureIgnoreCase`: Latin A-Z and the
      Cyrillic capitals U+0400..U+042F map to their lower-case letters; every other
      character is its own fold. */
  function FoldChar(c: char): char {
    if 'A' <= c <= 'Z' then (c as int + 32) as char
    else if '\U{0410}' <= c <= '\U{042F}' then (c as int + 32) as char
    else if '\U{0400}' <= c <= '\U{040F}' then (c as int + 80) as char
    else c
  }

  /** The fold of a string, character by character. */
  function Fold(s: string): (r: string)
    ensures |r| == |s|
  {
    if s == [] then [] else Fold(s[..|s| - 1]) + [FoldChar(s[|s| - 1])]
  }

  /** The fold maps each character on its own. */
  lemma {:induction false} FoldAt(s: string)
    ensures forall i :: 0 <= i < |s| ==> Fold(s)[i] == FoldChar(s[i])
    decreases |s|
  {
    if s != [] {
      FoldAt(s[..|s| - 1]);
      assert forall i :: 0 <= i < |s| - 1 ==> Fold(s)[i] == Fold(s[..|s| - 1])[i];
    }
  }

  /** Strings that fold character by character to the same characters have the
      same fold. */
  lemma FoldCharwise(s: string, t: string)
    requires |s| == |t|
    requires forall i :: 0 <= i < |s| ==> FoldChar(s[i]) == FoldChar(t[i])
    ensures Fold(s) == Fold(t)
  {
    FoldAt(s);
    FoldAt(t);
  }

  /** Strings whose characters at one position fold apart have different folds. */
  lemma FoldDiffersAt(s: string, t: string, i: nat)
    requires i < |s| && i < |t| && FoldChar(s[i]) != FoldChar(t[i])
    ensures Fold(s) != Fold(t)
  {
    FoldAt(s);
    FoldAt(t);
  }

  /** The fold of one character. */
  lemma FoldSingle(c: char)
    ensures Fold([c]) == [FoldChar(c)]
  {
    assert [c][..0] == [];
  }

  /** Two strings are equal under the case-insensitive comparer. */
  predicate EqualsIgnoreCase(a: string, b: string) {
    Fold(a) == Fold(b)
  }

  /** Folding twice is folding once, and folding keeps white space where it is. */
  lemma FoldIdempotent(s: string)
    ensures Fold(Fold(s)) == Fold(s)
    ensures |Fold(s)| == |s|
    ensures forall i :: 0 <= i < |s| ==> (IsWhiteSpace(Fold(s)[i]) <==> IsWhiteSpace(s[i]))
  {
    FoldAt(s);
    FoldAt(Fold(s));
    forall i | 0 <= i < |s|
      ensures Fold(Fold(s))[i] == Fold(s)[i]
      ensures IsWhiteSpace(Fold(s)[i]) <==> IsWhiteSpace(s[i])
    {
      FoldCharFixes(s[i]);
    }
  }

  /** Folding a character twice is folding it once, and keeps white space. */
  lemma FoldCharFixes(c: char)
    ensures FoldChar(FoldChar(c)) == FoldChar(c)
    ensures IsWhiteSpace(FoldChar(c)) <==> IsWhiteSpace(c)
  {
  }

  /** Folding does not change whether a string is blank or trimmed. */
  lemma FoldKeepsBlankness(s: string)
    ensures IsBlank(Fold(s)) <==> IsBlank(s)
    ensures IsTrimmed(Fold(s)) <==> IsTrimmed(s)
  {
    FoldIdempotent(s);
    IsBlankIff(s);
    IsBlankIff(Fold(s));
  }

  /** `p` occurs in `s` as a contiguous slice. */
  predicate Occurs(p: string, s: string)
    decreases |s|
  {
    p <= s || (s != [] && Occurs(p, s[1..]))
  }

  /** The slice of `s` at offset `k` is `p`. */
  predicate SliceAt(s: string, k: int, p: string) {
    0 <= k && k + |p| <= |s| && s[k..k + |p|] == p
  }

  /** `Occurs` is "some slice of `s` equals `p`". */
  lemma OccursIffSlice(p: string, s: string)
    ensures Occurs(p, s) <==> exists k :: SliceAt(s, k, p)
  {
    if Occurs(p, s) {
      OccursHasSlice(p, s);
    }
    if exists k :: SliceAt(s, k, p) {
      var k :| SliceAt(s, k, p);
      SliceOccurs(p, s, k);
    }
  }

  lemma {:induction false} OccursHasSlice(p: string, s: string)
    requires Occurs(p, s)
    ensures exists k :: SliceAt(s, k, p)
    decreases |s|
  {
    if p <= s {
      assert SliceAt(s, 0, p);
    } else {
      OccursHasSlice(p, s[1..]);
      var k :| SliceAt(s[1..], k, p);
      assert s[k + 1..k + 1 + |p|] == s[1..][k..k + |p|];
      assert SliceAt(s, k + 1, p);
    }
  }

  lemma {:induction false} SliceOccurs(p: string, s: string, k: int)
    requires SliceAt(s, k, p)
    ensures Occurs(p, s)
    decreases |s|
  {
    if k == 0 {
      assert p == s[..|p|];
    } else {
      assert s[1..][k - 1..k - 1 + |p|] == s[k..k + |p|];
      SliceOccurs(p, s[1..], k - 1);
    }
  }

  /** `haystack.Contains(needle, CurrentCultureIgnoreCase)`. */
  predicate ContainsIgnoreCase(haystack: string, needle: string) {
    Occurs(Fold(needle), Fold(haystack))
  }

  /** Ordinal (code point) lexicographic order: the order SQLite's binary collation
      and `string.CompareOrdinal` give. */
  predicate StringLe(a: string, b: string)
    decreases |a|
  {
    a == [] || (b != [] && (a[0] < b[0] || (a[0] == b[0] && StringLe(a[1..], b[1..]))))
  }

  /** Ordering under the case-insensitive comparer: ordinal order of the folds. */
  predicate FoldLe(a: string, b: string) {
    StringLe(Fold(a), Fold(b))
  }

  lemma {:induction false} StringLeReflexive(a: string)
    ensures StringLe(a, a)
    decreases |a|
  {
    if a != [] {
      StringLeReflexive(a[1..]);
    }
  }

  lemma {:induction false} StringLeTotal(a: string, b: string)
    ensures StringLe(a, b) || StringLe(b, a)
    decreases |a|
  {
    if a != [] && b != [] && a[0] == b[0] {
      StringLeTotal(a[1..], b[1..]);
    }
  }

  lemma {:induction false} StringLeTransitive(a: string, b: string, c: string)
    requires StringLe(a, b) && StringLe(b, c)
    ensures StringLe(a, c)
    decreases |a|
  {
    if a != [] && b != [] && c != [] && a[0] == b[0] == c[0] {
      StringLeTransitive(a[1..], b[1..], c[1..]);
    }
  }

  lemma {:induction false} StringLeAntisymmetric(a: string, b: string)
    requires StringLe(a, b) && StringLe(b, a)
    ensures a == b
    decreases |a|
  {
    if a != [] && b != [] {
      StringLeAntisymmetric(a[1..], b[1..]);
      assert a == [a[0]] + a[1..];
      assert b == [b[0]] + b[1..];
    }
  }
}
