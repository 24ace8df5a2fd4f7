/** The sorting behind `useSnippets` (client/lib/hooks/queries/use-snippets.ts):
    a group label picks a field through `snippetKeys`, and a copy of the
    fetched list is sorted by a comparator that dispatches on the kinds of
    the two values. */
module UseSnippets {
  import opened StableSort
  import opened ClientTypes

  /** `GroupKey`. */
  datatype GroupKey = GroupTitle | GroupLanguage | GroupFavorite | GroupLastModified | GroupCreatedOn

  /** `OrderKey`. */
  datatype OrderKey = AscendingOrder | DescendingOrder

  /** The literal each key stands for. */
  function GroupLabel(g: GroupKey): string {
    match g
    case GroupTitle => "Title"
    case GroupLanguage => "Language"
    case GroupFavorite => "Favorite"
    case GroupLastModified => "Last Modified"
    case GroupCreatedOn => "Created On"
  }

  /** `snippetKeys`. */
  function SnippetKeys(g: GroupKey): Field {
    match g
    case GroupTitle => Title
    case GroupLanguage => Language
    case GroupFavorite => IsFavorite
    case GroupLastModified => UpdatedAt
    case GroupCreatedOn => CreatedAt
  }

  /** The defaults of `useSnippets`. */
  const DefaultGroup: GroupKey := GroupLastModified
  const DefaultOrder: OrderKey := DescendingOrder

  /** Each label names a different key, and maps to a different field. */
  lemma SnippetKeysDistinct(g1: GroupKey, g2: GroupKey)
    ensures GroupLabel(g1) == GroupLabel(g2) <==> g1 == g2
    ensures SnippetKeys(g1) == SnippetKeys(g2) <==> g1 == g2
    ensures SnippetKeys(DefaultGroup) == UpdatedAt && GroupLabel(DefaultGroup) == "Last Modified"
  {
  }

  /** The comparison before the order is applied: strings by
      `localeCompare`, dates and numbers by difference, booleans with false
      first, and any other pair by the `localeCompare` of their `String()`
      forms. */
  function Compare(h: Host, x: Value, y: Value): int {
    if x.Str? && y.Str? then h.localeCompare(x.s, y.s)
    else if x.Date? && y.Date? then x.time - y.time
    else if x.Bool? && y.Bool? then (if x.b == y.b then 0 else if x.b then 1 else -1)
    else if x.Num? && y.Num? then x.n - y.n
    else h.localeCompare(String(h, x), String(h, y))
  }

  function Comparator(h: Host, field: Field, order: OrderKey): (Snippet, Snippet) -> int {
    ByField((x, y) => Compare(h, x, y), field, order == AscendingOrder)
  }

  lemma ComparatorApply(h: Host, field: Field, order: OrderKey, a: Snippet, b: Snippet)
    ensures Comparator(h, field, order)(a, b)
         == Directed(Compare(h, FieldValue(a, field), FieldValue(b, field)), order == AscendingOrder)
  {
  }

  /** `sortSnippets`: a sorted copy, a permutation of the input. */
  function SortSnippets(h: Host, snippets: seq<Snippet>, field: Field, order: OrderKey): (r: seq<Snippet>)
    ensures multiset(r) == multiset(snippets) && |r| == |snippets|
  {
    SortPermutation(snippets, Comparator(h, field, order));
    Sort(snippets, Comparator(h, field, order))
  }

  /** The `select` step of `useSnippets`. */
  function SelectSorted(h: Host, snippets: seq<Snippet>, group: GroupKey, order: OrderKey): seq<Snippet> {
    SortSnippets(h, snippets, SnippetKeys(group), order)
  }

  /** Within one kind the comparison is a total preorder. */
  lemma CompareKindConsistent(h: Host)
    requires ValidHost(h)
    ensures KindConsistent((x, y) => Compare(h, x, y))
  {
    forall x, y | KindOf(x) == KindOf(y)
      ensures Sign(Compare(h, x, y)) == -Sign(Compare(h, y, x))
    {
      CompareAntisymmetric(h, x, y);
    }
    forall x, y, z | KindOf(x) == KindOf(y) == KindOf(z) && Compare(h, x, y) <= 0 && Compare(h, y, z) <= 0
      ensures Compare(h, x, z) <= 0
    {
      CompareTransitive(h, x, y, z);
    }
  }

  /** Swapping two values of one kind flips the sign of the comparison. */
  lemma CompareAntisymmetric(h: Host, x: Value, y: Value)
    requires ValidHost(h) && KindOf(x) == KindOf(y)
    ensures Sign(Compare(h, x, y)) == -Sign(Compare(h, y, x))
  {
    if !x.Str? && !x.Date? && !x.Bool? && !x.Num? {
      assert Compare(h, x, y) == h.localeCompare(String(h, x), String(h, y));
      assert Compare(h, y, x) == h.localeCompare(String(h, y), String(h, x));
    }
  }

  /** "Not after" is transitive on values of one kind. */
  lemma CompareTransitive(h: Host, x: Value, y: Value, z: Value)
    requires ValidHost(h) && KindOf(x) == KindOf(y) == KindOf(z)
    requires Compare(h, x, y) <= 0 && Compare(h, y, z) <= 0
    ensures Compare(h, x, z) <= 0
  {
    if x.Str? {
      assert h.localeCompare(x.s, y.s) <= 0 && h.localeCompare(y.s, z.s) <= 0;
    } else if !x.Date? && !x.Bool? && !x.Num? {
      assert h.localeCompare(String(h, x), String(h, y)) <= 0;
      assert h.localeCompare(String(h, y), String(h, z)) <= 0;
    }
  }

  /** When the field's values share a kind, the result is ordered by the
      comparator and stable. */
  lemma SortSnippetsOrdered(h: Host, s: seq<Snippet>, field: Field, order: OrderKey)
    requires ValidHost(h) && Homogeneous(s, field)
    ensures SortedBy(Comparator(h, field, order), SortSnippets(h, s, field, order))
    ensures forall t | t in s ::
      Ties(SortSnippets(h, s, field, order), Comparator(h, field, order), t) == Ties(s, Comparator(h, field, order), t)
  {
    CompareKindConsistent(h);
    FieldSortCorrect((x, y) => Compare(h, x, y), field, order == AscendingOrder, s);
  }

  /** Sorting ascending by the favourite flag puts every non-favourite
      before every favourite. */
  lemma FavoritesLast(h: Host, s: seq<Snippet>)
    requires ValidHost(h)
    ensures var r := SortSnippets(h, s, IsFavorite, AscendingOrder);
      forall i, j | 0 <= i < j < |r| && r[i].isFavorite :: r[j].isFavorite
  {
    TypedFieldsHomogeneous(s, IsFavorite);
    SortSnippetsOrdered(h, s, IsFavorite, AscendingOrder);
    SortedFavoritesLast(h, SortSnippets(h, s, IsFavorite, AscendingOrder));
  }

  /** A list ordered by the ascending favourite comparator has no favourite
      before a non-favourite. */
  lemma SortedFavoritesLast(h: Host, r: seq<Snippet>)
    requires SortedBy(Comparator(h, IsFavorite, AscendingOrder), r)
    ensures forall i, j | 0 <= i < j < |r| && r[i].isFavorite :: r[j].isFavorite
  {
    forall i, j | 0 <= i < j < |r| && r[i].isFavorite ensures r[j].isFavorite {
      assert Comparator(h, IsFavorite, AscendingOrder)(r[i], r[j]) <= 0;
      ComparatorApply(h, IsFavorite, AscendingOrder, r[i], r[j]);
    }
  }

  /** A descending result is ordered from greatest to least under the
      ascending comparator: the descending comparison is the negated
      ascending one. */
  lemma DescendingReversesAscending(h: Host, s: seq<Snippet>, field: Field)
    requires ValidHost(h) && Homogeneous(s, field)
    ensures forall a, b :: Comparator(h, field, DescendingOrder)(a, b) == -Comparator(h, field, AscendingOrder)(a, b)
    ensures var r := SortSnippets(h, s, field, DescendingOrder);
      forall i, j | 0 <= i < j < |r| :: Comparator(h, field, AscendingOrder)(r[i], r[j]) >= 0
  {
    forall a, b ensures Comparator(h, field, DescendingOrder)(a, b) == -Comparator(h, field, AscendingOrder)(a, b) {
      ComparatorApply(h, field, DescendingOrder, a, b);
      ComparatorApply(h, field, AscendingOrder, a, b);
    }
    SortSnippetsOrdered(h, s, field, DescendingOrder);
    var r := SortSnippets(h, s, field, DescendingOrder);
    forall i, j | 0 <= i < j < |r| ensures Comparator(h, field, AscendingOrder)(r[i], r[j]) >= 0 {
      assert Comparator(h, field, DescendingOrder)(r[i], r[j]) <= 0;
    }
  }

  /** Across kinds the comparison is not transitive, even for a valid host:
      2 < 10 as numbers, 10 < "15" as strings, yet "2" > "15". */
  lemma MixedKindsInconsistent()
    ensures var h := LexHost();
      && Compare(h, Num(2), Num(10)) < 0
      && Compare(h, Num(10), Str("15")) < 0
      && Compare(h, Num(2), Str("15")) > 0
  {
    var h := LexHost();
    assert String(h, Num(10)) == "10" by {
      assert NatToString(10) == NatToString(1) + [DigitChar(0)];
    }
    assert String(h, Num(2)) == "2";
    assert Lex("10", "15") < 0 by {
      assert Lex("0", "5") == -1;
    }
    assert Lex("2", "15") > 0;
  }
}
