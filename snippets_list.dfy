/** The list component (client/app/components/SnippetsList.tsx). Its sort and
    the replace-by-id step are pure; the handlers write component state, so
    the state is a class whose methods are the handlers. The asynchronous
    fetch is split into the request it sends and the state change its answer
    causes. */
module SnippetsListView {
  import opened Wrappers
  import opened StableSort
  import opened SeqUtil
  import opened ClientTypes
  import opened Common

  /** `"asc" | "desc"`. */
  datatype Direction = Asc | Desc

  // ---------------------------------------------------------------------
  // Sorting

  /** The comparison before the direction is applied: strings by
      `localeCompare`, dates by time, booleans with false first, and any
      other pair (numbers included) by the `localeCompare` of their
      `String()` forms. */
  function Compare(h: Host, x: Value, y: Value): int {
    if x.Str? && y.Str? then h.localeCompare(x.s, y.s)
    else if x.Date? && y.Date? then x.time - y.time
    else if x.Bool? && y.Bool? then (if x.b == y.b then 0 else if x.b then 1 else -1)
    else h.localeCompare(String(h, x), String(h, y))
  }

  function Comparator(h: Host, field: Field, direction: Direction): (Snippet, Snippet) -> int {
    ByField((x, y) => Compare(h, x, y), field, direction == Asc)
  }

  lemma ComparatorApply(h: Host, field: Field, direction: Direction, a: Snippet, b: Snippet)
    ensures Comparator(h, field, direction)(a, b)
         == Directed(Compare(h, FieldValue(a, field), FieldValue(b, field)), direction == Asc)
  {
  }

  /** `sortSnippets`: a sorted copy, a permutation of the input. */
  function SortSnippets(h: Host, snippets: seq<Snippet>, field: Field, direction: Direction): (r: seq<Snippet>)
    ensures multiset(r) == multiset(snippets) && |r| == |snippets|
  {
    SortPermutation(snippets, Comparator(h, field, direction));
    Sort(snippets, Comparator(h, field, direction))
  }

  /** Within one kind the comparison is a total preorder. */
  lemma CompareKindConsistent(h: Host)
    requires ValidHost(h)
    ensures KindConsistent((x, y) => Compare(h, x, y))
  {
    forall x, y | KindOf(x) == KindOf(y)
      ensures Sign(Compare(h, x, y)) == -Sign(Compare(h, y, x))
    {
      CompareAntisymmetric(h, x, y);
    }
    forall x, y, z | KindOf(x) == KindOf(y) == KindOf(z) && Compare(h, x, y) <= 0 && Compare(h, y, z) <= 0
      ensures Compare(h, x, z) <= 0
    {
      CompareTransitive(h, x, y, z);
    }
  }

  /** Swapping two values of one kind flips the sign of the comparison. */
  lemma CompareAntisymmetric(h: Host, x: Value, y: Value)
    requires ValidHost(h) && KindOf(x) == KindOf(y)
    ensures Sign(Compare(h, x, y)) == -Sign(Compare(h, y, x))
  {
    if !x.Str? && !x.Date? && !x.Bool? {
      assert Compare(h, x, y) == h.localeCompare(String(h, x), String(h, y));
      assert Compare(h, y, x) == h.localeCompare(String(h, y), String(h, x));
    }
  }

  /** "Not after" is transitive on values of one kind. */
  lemma CompareTransitive(h: Host, x: Value, y: Value, z: Value)
    requires ValidHost(h) && KindOf(x) == KindOf(y) == KindOf(z)
    requires Compare(h, x, y) <= 0 && Compare(h, y, z) <= 0
    ensures Compare(h, x, z) <= 0
  {
    if x.Str? {
      assert h.localeCompare(x.s, y.s) <= 0 && h.localeCompare(y.s, z.s) <= 0;
    } else if !x.Date? && !x.Bool? {
      assert h.localeCompare(String(h, x), String(h, y)) <= 0;
      assert h.localeCompare(String(h, y), String(h, z)) <= 0;
    }
  }

  /** When the field's values share a kind, the result is ordered by the
      comparator and stable. */
  lemma SortSnippetsOrdered(h: Host, s: seq<Snippet>, field: Field, direction: Direction)
    requires ValidHost(h) && Homogeneous(s, field)
    ensures SortedBy(Comparator(h, field, direction), SortSnippets(h, s, field, direction))
    ensures forall t | t in s ::
      Ties(SortSnippets(h, s, field, direction), Comparator(h, field, direction), t)
      == Ties(s, Comparator(h, field, direction), t)
  {
    CompareKindConsistent(h);
    FieldSortCorrect((x, y) => Compare(h, x, y), field, direction == Asc, s);
  }

  /** Sorting ascending by favourites puts every non-favourite before every
      favourite. */
  lemma FavoritesLast(h: Host, s: seq<Snippet>)
    requires ValidHost(h)
    ensures var r := SortSnippets(h, s, IsFavorite, Asc);
      forall i, j | 0 <= i < j < |r| && r[i].isFavorite :: r[j].isFavorite
  {
    TypedFieldsHomogeneous(s, IsFavorite);
    SortSnippetsOrdered(h, s, IsFavorite, Asc);
    SortedFavoritesLast(h, SortSnippets(h, s, IsFavorite, Asc));
  }

  /** A list ordered by the ascending favourite comparator has no favourite
      before a non-favourite. */
  lemma SortedFavoritesLast(h: Host, r: seq<Snippet>)
    requires SortedBy(Comparator(h, IsFavorite, Asc), r)
    ensures forall i, j | 0 <= i < j < |r| && r[i].isFavorite :: r[j].isFavorite
  {
    forall i, j | 0 <= i < j < |r| && r[i].isFavorite ensures r[j].isFavorite {
      assert Comparator(h, IsFavorite, Asc)(r[i], r[j]) <= 0;
      ComparatorApply(h, IsFavorite, Asc, r[i], r[j]);
    }
  }

  /** "desc" negates the "asc" comparison, so a descending result runs from
      greatest to least under the ascending comparator. */
  lemma DescendingReversesAscending(h: Host, s: seq<Snippet>, field: Field)
    requires ValidHost(h) && Homogeneous(s, field)
    ensures forall a, b :: Comparator(h, field, Desc)(a, b) == -Comparator(h, field, Asc)(a, b)
    ensures var r := SortSnippets(h, s, field, Desc);
      forall i, j | 0 <= i < j < |r| :: Comparator(h, field, Asc)(r[i], r[j]) >= 0
  {
    forall a, b ensures Comparator(h, field, Desc)(a, b) == -Comparator(h, field, Asc)(a, b) {
      ComparatorApply(h, field, Desc, a, b);
      ComparatorApply(h, field, Asc, a, b);
    }
    SortSnippetsOrdered(h, s, field, Desc);
    var r := SortSnippets(h, s, field, Desc);
    forall i, j | 0 <= i < j < |r| ensures Comparator(h, field, Asc)(r[i], r[j]) >= 0 {
      assert Comparator(h, field, Desc)(r[i], r[j]) <= 0;
    }
  }

  /** With no number branch, numbers fall back to comparing their text:
      under code-unit order 10 comes before 2. */
  lemma NumbersCompareAsText()
    ensures Compare(LexHost(), Num(10), Num(2)) < 0
  {
    var h := LexHost();
    assert String(h, Num(10)) == "10" by {
      assert NatToString(10) == NatToString(1) + [DigitChar(0)];
    }
    assert String(h, Num(2)) == "2";
  }

  // ---------------------------------------------------------------------
  // Labels

  /** `filterOptLabel`. */
  function FilterOptLabel(f: Field): string {
    match f
    case IsFavorite => "Favorites"
    case Title => "Title"
    case Description => "Description"
    case Content => "Content"
    case Language => "Language"
    case CreatedAt => "Date Created"
    case UpdatedAt => "Date Updated"
  }

  /** The `switch (opt)` of the sort menu: an unknown label sorts by
      creation date. */
  function SortFieldOf(opt: string): Field {
    match opt
    case "Favorites" => IsFavorite
    case "Title" => Title
    case "Description" => Description
    case "Content" => Content
    case "Language" => Language
    case "Date Created" => CreatedAt
    case "Date Updated" => UpdatedAt
    case _ => CreatedAt
  }

  /** Every field's label selects that field, distinct fields have distinct
      labels, and any other text selects the creation date. */
  lemma SortLabelsRoundTrip(f: Field, g: Field, opt: string)
    ensures SortFieldOf(FilterOptLabel(f)) == f
    ensures FilterOptLabel(f) == FilterOptLabel(g) <==> f == g
    ensures (forall k :: FilterOptLabel(k) != opt) ==> SortFieldOf(opt) == CreatedAt
  {
    if forall k :: FilterOptLabel(k) != opt {
      assert FilterOptLabel(IsFavorite) != opt && FilterOptLabel(Title) != opt;
      assert FilterOptLabel(Description) != opt && FilterOptLabel(Content) != opt;
      assert FilterOptLabel(Language) != opt && FilterOptLabel(UpdatedAt) != opt;
    }
  }

  /** `orderOptLabel`. */
  function OrderOptLabel(d: Direction): string {
    match d
    case Asc => "Ascending"
    case Desc => "Descending"
  }

  /** The `switch (opt)` of the order menu: anything but "Ascending" means
      descending. */
  function DirectionOf(opt: string): Direction {
    if opt == "Ascending" then Asc else Desc
  }

  lemma OrderLabelsRoundTrip(d: Direction, opt: string)
    ensures DirectionOf(OrderOptLabel(d)) == d
    ensures DirectionOf(opt) == Asc <==> opt == OrderOptLabel(Asc)
  {
  }

  // ---------------------------------------------------------------------
  // Pure list steps

  /** The `map` of `updateSnippetLocally`: every element with the updated
      snippet's id is replaced by it, the others stay. */
  function ReplaceById(s: seq<Snippet>, u: Snippet): (r: seq<Snippet>)
    ensures |r| == |s|
    ensures forall i | 0 <= i < |s| :: r[i] == (if s[i].id == u.id then u else s[i])
    decreases |s|
  {
    if s == [] then [] else [if s[0].id == u.id then u else s[0]] + ReplaceById(s[1..], u)
  }

  /** The replaced list holds the updated snippet exactly when some element
      had its id, and otherwise only, and all, the elements with other ids. */
  lemma ReplaceByIdContents(s: seq<Snippet>, u: Snippet)
    ensures forall e | e in ReplaceById(s, u) :: e == u || (e in s && e.id != u.id)
    ensures forall e | e in s && e.id != u.id :: e in ReplaceById(s, u)
    ensures u in ReplaceById(s, u) <==> exists e | e in s :: e.id == u.id
  {
    ReplaceByIdOnly(s, u);
    ReplaceByIdKeeps(s, u);
    ReplaceByIdHasUpdated(s, u);
  }

  /** Every element of the replaced list is the update or an element of the
      input with another id. */
  lemma ReplaceByIdOnly(s: seq<Snippet>, u: Snippet)
    ensures forall e | e in ReplaceById(s, u) :: e == u || (e in s && e.id != u.id)
  {
    var m := ReplaceById(s, u);
    forall e | e in m ensures e == u || (e in s && e.id != u.id) {
      var i :| 0 <= i < |m| && m[i] == e;
      assert m[i] == (if s[i].id == u.id then u else s[i]);
    }
  }

  /** Every element of the input with another id stays. */
  lemma ReplaceByIdKeeps(s: seq<Snippet>, u: Snippet)
    ensures forall e | e in s && e.id != u.id :: e in ReplaceById(s, u)
  {
    var m := ReplaceById(s, u);
    forall e | e in s && e.id != u.id ensures e in m {
      var i :| 0 <= i < |s| && s[i] == e;
      assert m[i] == e;
    }
  }

  /** The update is in the replaced list exactly when its id was in the
      input. */
  lemma ReplaceByIdHasUpdated(s: seq<Snippet>, u: Snippet)
    ensures u in ReplaceById(s, u) <==> exists e | e in s :: e.id == u.id
  {
    var m := ReplaceById(s, u);
    if exists e | e in s :: e.id == u.id {
      var e :| e in s && e.id == u.id;
      var i :| 0 <= i < |s| && s[i] == e;
      assert m[i] == u;
    }
  }

  /** After the local update the list keeps its length; it holds the updated
      snippet exactly when some element had its id, and otherwise only, and
      all, the elements with other ids. */
  lemma UpdateLocallyContents(h: Host, s: seq<Snippet>, u: Snippet, field: Field, direction: Direction)
    ensures var r := SortSnippets(h, ReplaceById(s, u), field, direction);
      && |r| == |s|
      && (forall e | e in r :: e == u || (e in s && e.id != u.id))
      && (forall e | e in s && e.id != u.id :: e in r)
      && (u in r <==> exists e | e in s :: e.id == u.id)
  {
    var m := ReplaceById(s, u);
    var r := SortSnippets(h, m, field, direction);
    ReplaceByIdContents(s, u);
    forall e ensures e in r <==> e in m {
      MemberOfPermutation(r, m, e);
    }
  }

  /** The tag menu's toggle: a selected tag loses its first occurrence, any
      other tag is appended. */
  function ToggleTag(tags: seq<string>, tag: string): seq<string> {
    if tag in tags then RemoveFirst(tags, tag) else tags + [tag]
  }

  /** Toggling flips membership of the tag and of no other, keeps the list
      free of duplicates, and toggling an absent tag twice restores the
      list. */
  lemma ToggleTagProperties(tags: seq<string>, tag: string)
    requires NoDuplicates(tags)
    ensures NoDuplicates(ToggleTag(tags, tag))
    ensures Elems(ToggleTag(tags, tag)) == if tag in tags then Elems(tags) - {tag} else Elems(tags) + {tag}
    ensures tag !in tags ==> ToggleTag(ToggleTag(tags, tag), tag) == tags
  {
    if tag in tags {
      RemoveFirstNoDuplicates(tags, tag);
    } else {
      AppendFreshNoDuplicates(tags, tag);
      RemoveFirstOfAppended(tags, tag);
    }
  }

  // ---------------------------------------------------------------------
  // Component state

  /** What `fetchSnippets` sends, with the sort settings its closure holds. */
  datatype FetchRequest = FetchRequest(path: string, field: Field, direction: Direction)

  /** How the two requests of `fetchSnippets` end: both answered, the
      snippets request failed, or the snippets arrived and the tags request
      failed. A failure without an HTTP status has none. */
  datatype FetchOutcome =
    | Fetched(snippets: seq<Snippet>, tags: seq<string>)
    | SnippetsFailed(status: Option<int>, message: string)
    | TagsFailed(received: seq<Snippet>, tagsStatus: Option<int>, tagsMessage: string)

  class SnippetsList {
    const host: Host
    var snippets: seq<Snippet>
    var tags: seq<string>
    var searchValue: string
    var searchTags: seq<string>
    var sortBy: Field
    var sortOrder: Direction
    var loading: bool
    var error: Option<string>

    /** The initial state: newest created first, loading. */
    constructor (host: Host)
      ensures this.host == host
      ensures snippets == [] && tags == [] && searchValue == "" && searchTags == []
      ensures sortBy == CreatedAt && sortOrder == Desc
      ensures loading && error == None
    {
      this.host := host;
      snippets := [];
      tags := [];
      searchValue := "";
      searchTags := [];
      sortBy := CreatedAt;
      sortOrder := Desc;
      loading := true;
      error := None;
    }

    /** The request half of `fetchSnippets`: the search text goes through
        `encodeURI`, the selected tags through `urlEncodeQueryArray`. */
    method BeginFetch() returns (req: FetchRequest)
      modifies this
      ensures req.path == "/snippets?q=" + host.encodeUri(searchValue) + "&" + UrlEncodeQueryArray("tags", searchTags)
      ensures req.field == sortBy && req.direction == sortOrder
      ensures loading
      ensures snippets == old(snippets) && tags == old(tags) && error == old(error)
      ensures searchValue == old(searchValue) && searchTags == old(searchTags)
      ensures sortBy == old(sortBy) && sortOrder == old(sortOrder)
    {
      var tagsQuery := UrlEncodeQueryArray("tags", searchTags);
      var query := host.encodeUri(searchValue);
      loading := true;
      req := FetchRequest("/snippets?q=" + query + "&" + tagsQuery, sortBy, sortOrder);
    }

    /** The answer half of `fetchSnippets`. Snippets are stored sorted by the
        request's settings and tags sorted by `localeCompare`; a 404 empties
        the list without recording an error, any other failure records its
        message; an earlier error is never cleared; loading always ends. */
    method ResolveFetch(req: FetchRequest, outcome: FetchOutcome)
      modifies this
      ensures !loading
      ensures outcome.Fetched? ==>
        && snippets == SortSnippets(host, outcome.snippets, req.field, req.direction)
        && tags == Sort(outcome.tags, host.localeCompare)
        && error == old(error)
      ensures outcome.SnippetsFailed? ==>
        && tags == old(tags)
        && (outcome.status == Some(404) ==> snippets == [] && error == old(error))
        && (outcome.status != Some(404) ==> snippets == old(snippets) && error == Some(outcome.message))
      ensures outcome.TagsFailed? ==>
        && tags == old(tags)
        && (outcome.tagsStatus == Some(404) ==> snippets == [] && error == old(error))
        && (outcome.tagsStatus != Some(404) ==>
              snippets == SortSnippets(host, outcome.received, req.field, req.direction)
              && error == Some(outcome.tagsMessage))
      ensures searchValue == old(searchValue) && searchTags == old(searchTags)
      ensures sortBy == old(sortBy) && sortOrder == old(sortOrder)
    {
      match outcome {
      case Fetched(received, fetchedTags) =>
        snippets := SortSnippets(host, received, req.field, req.direction);
        tags := Sort(fetchedTags, host.localeCompare);
      case SnippetsFailed(status, message) =>
        if status == Some(404) {
          snippets := [];
        } else {
          error := Some(message);
        }
      case TagsFailed(received, status, message) =>
        snippets := SortSnippets(host, received, req.field, req.direction);
        if status == Some(404) {
          snippets := [];
        } else {
          error := Some(message);
        }
      }
      loading := false;
    }

    /** `updateSnippetLocally`: replace by id, then re-sort with the current
        settings. */
    method UpdateSnippetLocally(updated: Snippet)
      modifies this
      ensures snippets == SortSnippets(host, ReplaceById(old(snippets), updated), sortBy, sortOrder)
      ensures |snippets| == |old(snippets)|
      ensures tags == old(tags) && searchValue == old(searchValue) && searchTags == old(searchTags)
      ensures sortBy == old(sortBy) && sortOrder == old(sortOrder)
      ensures loading == old(loading) && error == old(error)
    {
      var replaced := ReplaceById(snippets, updated);
      snippets := SortSnippets(host, replaced, sortBy, sortOrder);
    }

    /** The sort menu's handler. */
    method SelectSortOption(opt: string)
      modifies this
      ensures sortBy == SortFieldOf(opt)
      ensures snippets == old(snippets) && tags == old(tags) && sortOrder == old(sortOrder)
      ensures searchValue == old(searchValue) && searchTags == old(searchTags)
      ensures loading == old(loading) && error == old(error)
    {
      sortBy := SortFieldOf(opt);
    }

    /** The order menu's handler. */
    method SelectOrderOption(opt: string)
      modifies this
      ensures sortOrder == DirectionOf(opt)
      ensures snippets == old(snippets) && tags == old(tags) && sortBy == old(sortBy)
      ensures searchValue == old(searchValue) && searchTags == old(searchTags)
      ensures loading == old(loading) && error == old(error)
    {
      sortOrder := DirectionOf(opt);
    }

    /** The tag menu's `onSelect`: a selected tag is spliced out of a copy at
        its `indexOf`, any other tag is appended. */
    method ToggleSearchTag(tag: string)
      modifies this
      ensures searchTags == ToggleTag(old(searchTags), tag)
      ensures snippets == old(snippets) && tags == old(tags) && searchValue == old(searchValue)
      ensures sortBy == old(sortBy) && sortOrder == old(sortOrder)
      ensures loading == old(loading) && error == old(error)
    {
      if tag in searchTags {
        var index := FirstIndex(searchTags, tag);
        RemoveFirstAt(searchTags, tag);
        searchTags := searchTags[..index] + searchTags[index + 1..];
        return;
      }
      searchTags := searchTags + [tag];
    }

    /** `handleSearchChanges`. */
    method SearchChanged(changes: string)
      modifies this
      ensures searchValue == changes
      ensures snippets == old(snippets) && tags == old(tags) && searchTags == old(searchTags)
      ensures sortBy == old(sortBy) && sortOrder == old(sortOrder)
      ensures loading == old(loading) && error == old(error)
    {
      searchValue := changes;
    }
  }

  /** The stored tags are ordered by `localeCompare` and are exactly the
      fetched ones. */
  lemma FetchedTagsOrdered(h: Host, fetched: seq<string>)
    requires ValidHost(h)
    ensures SortedBy(h.localeCompare, Sort(fetched, h.localeCompare))
    ensures multiset(Sort(fetched, h.localeCompare)) == multiset(fetched)
  {
    LocaleCompareOrders(h, fetched);
    SortSorted(fetched, h.localeCompare);
    SortPermutation(fetched, h.localeCompare);
  }
}
