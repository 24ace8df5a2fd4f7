/** The sorting behind the query hook in client/lib/hooks/queries/snippets.ts:
    a switch maps the sort label to a field, and a copy of the list is sorted
    by a comparator that compares only strings, dates and booleans; every
    other pair compares as equal. */
module SnippetQueries {
  import opened StableSort
  import opened ClientTypes

  /** `SortByKey`. */
  datatype SortByKey = ByTitle | ByDescription | ByLanguage | ByLastModified | ByDateCreated | ByFavorites

  /** `OrderKey`. */
  datatype OrderKey = Ascending | Descending

  /** The literal each key stands for. */
  function SortLabel(k: SortByKey): string {
    match k
    case ByTitle => "Title"
    case ByDescription => "Description"
    case ByLanguage => "Language"
    case ByLastModified => "Last Modified"
    case ByDateCreated => "Date Created"
    case ByFavorites => "Favorites"
  }

  /** The `switch (sortBy)` of `sortSnippets`. */
  function KeyOf(k: SortByKey): Field {
    match k
    case ByTitle => Title
    case ByDescription => Description
    case ByLanguage => Language
    case ByLastModified => UpdatedAt
    case ByDateCreated => CreatedAt
    case ByFavorites => IsFavorite
  }

  /** The defaults of `useSnippets`. */
  const DefaultSortBy: SortByKey := ByLastModified
  const DefaultOrder: OrderKey := Descending

  /** Labels and fields are in one-to-one correspondence; content is never a
      sort key here. */
  lemma KeyOfDistinct(k1: SortByKey, k2: SortByKey)
    ensures SortLabel(k1) == SortLabel(k2) <==> k1 == k2
    ensures KeyOf(k1) == KeyOf(k2) <==> k1 == k2
    ensures KeyOf(k1) != Content
    ensures KeyOf(DefaultSortBy) == UpdatedAt && SortLabel(DefaultSortBy) == "Last Modified"
  {
  }

  /** The comparison before the order is applied; no fallback, so any other
      pair of kinds compares 0. */
  function Compare(h: Host, x: Value, y: Value): int {
    if x.Str? && y.Str? then h.localeCompare(x.s, y.s)
    else if x.Date? && y.Date? then x.time - y.time
    else if x.Bool? && y.Bool? then (if x.b == y.b then 0 else if x.b then 1 else -1)
    else 0
  }

  function Comparator(h: Host, field: Field, order: OrderKey): (Snippet, Snippet) -> int {
    ByField((x, y) => Compare(h, x, y), field, order == Ascending)
  }

  lemma ComparatorApply(h: Host, field: Field, order: OrderKey, a: Snippet, b: Snippet)
    ensures Comparator(h, field, order)(a, b)
         == Directed(Compare(h, FieldValue(a, field), FieldValue(b, field)), order == Ascending)
  {
  }

  /** `sortSnippets`: a sorted copy, a permutation of the input. */
  function SortSnippets(h: Host, snippets: seq<Snippet>, sortBy: SortByKey, order: OrderKey): (r: seq<Snippet>)
    ensures multiset(r) == multiset(snippets) && |r| == |snippets|
  {
    SortPermutation(snippets, Comparator(h, KeyOf(sortBy), order));
    Sort(snippets, Comparator(h, KeyOf(sortBy), order))
  }

  /** Within one kind the comparison is a total preorder. */
  lemma CompareKindConsistent(h: Host)
    requires ValidHost(h)
    ensures KindConsistent((x, y) => Compare(h, x, y))
  {
    forall x, y | KindOf(x) == KindOf(y)
      ensures Sign(Compare(h, x, y)) == -Sign(Compare(h, y, x))
    {
      CompareAntisymmetric(h, x, y);
    }
    forall x, y, z | KindOf(x) == KindOf(y) == KindOf(z) && Compare(h, x, y) <= 0 && Compare(h, y, z) <= 0
      ensures Compare(h, x, z) <= 0
    {
      CompareTransitive(h, x, y, z);
    }
  }

  /** Swapping two values of one kind flips the sign of the comparison. */
  lemma CompareAntisymmetric(h: Host, x: Value, y: Value)
    requires ValidHost(h) && KindOf(x) == KindOf(y)
    ensures Sign(Compare(h, x, y)) == -Sign(Compare(h, y, x))
  {
  }

  /** "Not after" is transitive on values of one kind. */
  lemma CompareTransitive(h: Host, x: Value, y: Value, z: Value)
    requires ValidHost(h) && KindOf(x) == KindOf(y) == KindOf(z)
    requires Compare(h, x, y) <= 0 && Compare(h, y, z) <= 0
    ensures Compare(h, x, z) <= 0
  {
    if x.Str? {
      assert h.localeCompare(x.s, y.s) <= 0 && h.localeCompare(y.s, z.s) <= 0;
    }
  }

  /** When the field's values share a kind, the result is ordered by the
      comparator and stable. */
  lemma SortSnippetsOrdered(h: Host, s: seq<Snippet>, sortBy: SortByKey, order: OrderKey)
    requires ValidHost(h) && Homogeneous(s, KeyOf(sortBy))
    ensures SortedBy(Comparator(h, KeyOf(sortBy), order), SortSnippets(h, s, sortBy, order))
    ensures forall t | t in s ::
      Ties(SortSnippets(h, s, sortBy, order), Comparator(h, KeyOf(sortBy), order), t)
      == Ties(s, Comparator(h, KeyOf(sortBy), order), t)
  {
    CompareKindConsistent(h);
    FieldSortCorrect((x, y) => Compare(h, x, y), KeyOf(sortBy), order == Ascending, s);
  }

  /** When no two values are both strings, both dates or both booleans
      (the date fields holding numbers, null, nothing, or one value of each
      kind), every comparison is 0 and the list stays exactly as it was. */
  lemma UnsupportedKindsKeepOrder(h: Host, s: seq<Snippet>, sortBy: SortByKey, order: OrderKey)
    requires forall i, j | 0 <= i < j < |s| ::
      var a, b := FieldValue(s[i], KeyOf(sortBy)), FieldValue(s[j], KeyOf(sortBy));
      !(a.Str? && b.Str?) && !(a.Date? && b.Date?) && !(a.Bool? && b.Bool?)
    ensures SortSnippets(h, s, sortBy, order) == s
  {
    var cmp := Comparator(h, KeyOf(sortBy), order);
    forall i, j | 0 <= i < j < |s| ensures cmp(s[i], s[j]) <= 0 {
      ComparatorApply(h, KeyOf(sortBy), order, s[i], s[j]);
    }
    SortOfSorted(s, cmp);
  }

  /** Sorting ascending by favourites puts every non-favourite before every
      favourite. */
  lemma FavoritesLast(h: Host, s: seq<Snippet>)
    requires ValidHost(h)
    ensures var r := SortSnippets(h, s, ByFavorites, Ascending);
      forall i, j | 0 <= i < j < |r| && r[i].isFavorite :: r[j].isFavorite
  {
    TypedFieldsHomogeneous(s, IsFavorite);
    SortSnippetsOrdered(h, s, ByFavorites, Ascending);
    SortedFavoritesLast(h, SortSnippets(h, s, ByFavorites, Ascending));
  }

  /** A list ordered by the ascending favourites comparator has no favourite
      before a non-favourite. */
  lemma SortedFavoritesLast(h: Host, r: seq<Snippet>)
    requires SortedBy(Comparator(h, IsFavorite, Ascending), r)
    ensures forall i, j | 0 <= i < j < |r| && r[i].isFavorite :: r[j].isFavorite
  {
    forall i, j | 0 <= i < j < |r| && r[i].isFavorite ensures r[j].isFavorite {
      assert Comparator(h, IsFavorite, Ascending)(r[i], r[j]) <= 0;
      ComparatorApply(h, IsFavorite, Ascending, r[i], r[j]);
    }
  }

  /** Descending negates the ascending comparison, so a descending result
      runs from greatest to least under the ascending comparator. */
  lemma DescendingReversesAscending(h: Host, s: seq<Snippet>, sortBy: SortByKey)
    requires ValidHost(h) && Homogeneous(s, KeyOf(sortBy))
    ensures forall a, b :: Comparator(h, KeyOf(sortBy), Descending)(a, b) == -Comparator(h, KeyOf(sortBy), Ascending)(a, b)
    ensures var r := SortSnippets(h, s, sortBy, Descending);
      forall i, j | 0 <= i < j < |r| :: Comparator(h, KeyOf(sortBy), Ascending)(r[i], r[j]) >= 0
  {
    forall a, b ensures Comparator(h, KeyOf(sortBy), Descending)(a, b) == -Comparator(h, KeyOf(sortBy), Ascending)(a, b) {
      ComparatorApply(h, KeyOf(sortBy), Descending, a, b);
      ComparatorApply(h, KeyOf(sortBy), Ascending, a, b);
    }
    SortSnippetsOrdered(h, s, sortBy, Descending);
    var r := SortSnippets(h, s, sortBy, Descending);
    forall i, j | 0 <= i < j < |r| ensures Comparator(h, KeyOf(sortBy), Ascending)(r[i], r[j]) >= 0 {
      assert Comparator(h, KeyOf(sortBy), Descending)(r[i], r[j]) <= 0;
    }
  }

  /** Across kinds the "compare as equal" rule breaks transitivity: "b" ties
      with true and true ties with "a", yet "b" is after "a". */
  lemma MixedKindsInconsistent()
    ensures var h := LexHost();
      && Compare(h, Str("b"), Bool(true)) == 0
      && Compare(h, Bool(true), Str("a")) == 0
      && Compare(h, Str("b"), Str("a")) > 0
  {
  }
}
