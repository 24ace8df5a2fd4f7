# cstash snippet store and client sorting, modelled in Dafny

cstash keeps code snippets: a Go server holds them in memory, and a
TypeScript/React client lists, sorts, filters and edits them. This project
models the server's snippet store and snippet record, the random snippet-ID
generator, and on the client the sort comparators, the query-string
encoder, and the state machines of the snippet list and list item
components. It then proves properties of that model.

Server side:

* `Models.Snippet` is the snippet record as a class. Its tag edits and
  favourite toggle update fields in place. The clock reading is a
  parameter.
* `Storage.MemoryStore` is the store as a class. It holds two maps: id to
  snippet, and tag to reference count. Go iterates a map in no fixed
  order, so every such loop here takes an arbitrary remaining key
  (`var k :| k in remaining`). The contracts therefore hold for every
  iteration order.
* Several quirks of the tag bookkeeping are modelled as written:
  * `DeleteTags` ignores its arguments. It visits tags in map order and
    deletes each zero-count tag it meets, until it finds one with a
    positive count. It decrements that one and stops.
  * `CreateTags` leaves an existing zero-count tag at zero. The tag stays
    unlisted.
  * `updateTags` re-creates the tags that are kept and hands the dropped
    ones to `DeleteTags`, which ignores them.

  The lemmas `CreatedTagsLive`, `DeleteTagsLive` and
  `UpdateTagsAddsNothingNew` state exactly what these do to the set of
  listed tags.
* `Auth.NewSecureId` encodes 8 random bytes in the standard base64
  alphabet (section 4 of RFC 4648) and drops `+`, `/` and `=`. The proofs
  show the ID has at most 11 characters, all ASCII letters and digits. It
  has exactly 11 characters iff the encoding contains neither `+` nor `/`.

Client side:

* `StableSort` is a stable insertion sort. It stands for
  `Array.prototype.sort`, which section 23.1.3.30 of ECMA-262 (2023 edition) requires to
  be stable. It is proved to:
  * return a permutation of its input;
  * be sorted under any comparator that is a total preorder on the input;
  * keep ties in their input order;
  * be the only output with those properties, and be idempotent.
* `ClientTypes` holds the client's `Snippet` record, with field values
  tagged by their JavaScript kind. Its `Host` collects what the client
  takes from the JavaScript runtime: `localeCompare`, `Date.toString` and
  `encodeURI`. `ValidHost` requires `localeCompare` to be a total preorder,
  and `LexHost` shows that one exists.
* `UseSnippets`, `SnippetQueries` and `SnippetsListView` are the three
  sort comparators. For each one the proofs show:
  * sorting on a field whose values all have one kind yields an ordered,
    stable permutation;
  * favourites go last in ascending order;
  * descending order is ascending order reversed, up to ties.
* `Common` is the `key=v&key=w` query-string encoder, with its length and
  its inverse (`Split`).
* `SnippetsListView.SnippetsList` and `SnippetsListItemView.SnippetsListItem`
  are the two components' state as classes. Each asynchronous handler is
  split in two methods. One issues the request and returns it. The other
  receives the outcome (success, or an error with its status) and applies
  the state changes the handler makes after its `await`.

When a field mixes kinds, the comparators are not a total order:

* `SnippetQueries.Compare` returns 0 for any pair of different kinds. It is
  not transitive (`SnippetQueries.MixedKindsInconsistent`).
* The `String(...)` fallback in `UseSnippets.Compare` and
  `SnippetsListView.Compare` orders `2 < 10` as numbers but `10 < "15" < 2`
  as text (`UseSnippets.MixedKindsInconsistent`).
* `SnippetsListView.Compare` has no numeric branch, so it orders `10`
  before `2` (`SnippetsListView.NumbersCompareAsText`).

The model follows the code. Every ordering result is therefore stated for
fields whose values share one kind (`ClientTypes.Homogeneous`), which
`ClientTypes.TypedFieldsHomogeneous` shows holds for every sortable field
of well-typed snippets.

## Model

| member | source | states |
|---|---|---|
| Models.Snippet.NewSnippet | server/internal/models/snippet.go:24-36 | a new snippet has the given id, title, content and language, an empty description, no tags, is not a favourite, and was created and updated at the same instant |
| Models.Snippet.AddTag | server/internal/models/snippet.go:39-45 | afterwards the tag is present; a tag already present changes nothing (tags and update time kept); an absent tag is appended and the update time set; tags stay free of duplicates; other fields unchanged |
| Models.Snippet.RemoveTag | server/internal/models/snippet.go:48-57 | the tags become the old ones with the first occurrence removed; if it was present the list shrinks by one and the update time is set, otherwise nothing changes; with no duplicates, the tag is gone afterwards |
| Models.Snippet.ToggleFavorite | server/internal/models/snippet.go:60-63 | the favourite flag flips, the update time is set, everything else is unchanged |
| Storage.MemoryStore.constructor | server/internal/storage/storage.go:30-38 | a new store holds no snippets and no tags |
| Storage.MemoryStore.CreateSnippet | server/internal/storage/storage.go:41-51 | the snippet is stored under its id, replacing any previous one; its tags are registered: new ones get count 1, existing counts are untouched, so the listed tags gain exactly the new ones |
| Storage.MemoryStore.GetSnippet | server/internal/storage/storage.go:54-69 | returns the stored snippet for a known id and `SnippetNotFound` for an unknown one, changing nothing |
| Storage.MemoryStore.UpdateSnippet | server/internal/storage/storage.go:72-125 | unknown id: `SnippetNotFound` and nothing changes; otherwise each string field with a string patch takes it, a tags array replaces the tags (non-strings become "") and updates the tag counts, a boolean `isFavorite` is applied, other keys and mistyped values are ignored, the creation time is kept and the update time set |
| Storage.MemoryStore.PatchText | server/internal/storage/storage.go:86-100 | each of title, description, content and language takes the patch's value exactly when that value is a string |
| Storage.MemoryStore.ReplaceTags | server/internal/storage/storage.go:103-115 | the new tags have one entry per array item, the item's text or "" for a non-string, and the tag counts change as `updateTags` makes them |
| Storage.MemoryStore.DeleteSnippet | server/internal/storage/storage.go:128-146 | unknown id: `SnippetNotFound` and nothing changes; otherwise exactly that id is removed and one `DeleteTags` pass runs on the tag counts |
| Storage.MemoryStore.AllSnippets | server/internal/storage/storage.go:161-163 | every stored snippet exactly once, in some order |
| Storage.MemoryStore.ListSnippets | server/internal/storage/storage.go:149-180 | a snippet is listed iff it is stored and either carries a requested tag or contains the trimmed, lower-cased query in a text field; no snippet twice; a nil tag list with a blank query lists everything, an empty list with a blank query nothing |
| Storage.MemoryStore.CreateTags | server/internal/storage/storage.go:183-193 | tags not yet present get count 1 and present ones keep their count, whatever their order or repetition |
| Storage.MemoryStore.ListTags | server/internal/storage/storage.go:196-214 | returns exactly the tags whose count is at least 1, each once |
| Storage.MemoryStore.DeleteTags | server/internal/storage/storage.go:218-232 | the arguments are ignored; either every tag had count 0 and all are deleted, or some zero-count tags are deleted and exactly one positive count is decremented, all other counts unchanged |
| Storage.MemoryStore.UpdateTags | server/internal/storage/storage.go:239-269 | tags in both old and new lists are (re)created, then one `DeleteTags` pass runs; counts stay at most 1 |
| Storage.HasAnyTag | server/internal/storage/storage.go:272-280 | true iff some requested tag is among the snippet's tags |
| Storage.MemoryStore.CollectMatching | server/internal/storage/storage.go:165-175 | the loop over the map collects exactly the stored snippets that carry a wanted tag or contain the query, each once; with no wanted tags and an empty query it collects nothing |
| Storage.AnyFieldContainsQuery | server/internal/storage/storage.go:283-292 | an empty query matches nothing; a non-empty query that occurs verbatim in the title, content, description or language matches |
| Storage.EmptyQueryMatchesNothing | server/internal/storage/storage.go:283-297 | every field contains the empty string even ignoring case, yet the empty query matches no snippet: the `query == ""` guard is what keeps an empty query from matching everything |
| Storage.ContainsIgnoreCaseProperties | server/internal/storage/storage.go:295-297 | an exact occurrence is also a case-insensitive one, and lower-casing either argument first does not change the answer |
| Storage.NormalizeQuery | server/internal/storage/storage.go:159 | the normalised query is empty iff the query is nothing but white space |
| Storage.CreatedTagsLive | server/internal/storage/storage.go:187-192 | after creating a set of tags, the listed tags are the old ones plus the created tags that were absent; counts of present tags are untouched |
| Storage.CreatedTagsAtMostOne | server/internal/storage/storage.go:187-192 | creating tags keeps every count at most 1 |
| Storage.CreatedTagsCompose | server/internal/storage/storage.go:187-192 | creating two sets one after the other equals creating their union, and creating the same set twice equals creating it once |
| Storage.DeleteTagsLive | server/internal/storage/storage.go:218-232 | a deletion pass keeps counts at most 1 and lists either no tag at all or exactly one listed tag fewer |
| Storage.UpdateTagsAddsNothingNew | server/internal/storage/storage.go:259-268 | a tag that was neither listed nor among the old tags is not listed after `updateTags`, even if it is in the new list |
| GoStrings.ToLower | server/internal/storage/storage.go:296 | lower-casing keeps the length and maps each character through the ASCII case mapping |
| GoStrings.ToLowerIdempotent | server/internal/storage/storage.go:296 | lower-casing twice equals lower-casing once |
| GoStrings.TrimSpaceSlice | server/internal/storage/storage.go:159 | the trimmed query is a contiguous slice of the query with no white space at either end, and only white space was removed |
| GoStrings.TrimSpaceIdempotent | server/internal/storage/storage.go:159 | trimming twice equals trimming once |
| SeqUtil.RemoveFirstAt | server/internal/models/snippet.go:49-55 | removing the first occurrence at index i keeps the elements before i and shifts those after it down by one |
| SeqUtil.RemoveFirstNoDuplicates | server/internal/models/snippet.go:48-57 | on a duplicate-free list, removal keeps it duplicate-free and removes exactly the element from its set |
| SeqUtil.RemoveFirstOfAppended | client/app/components/SnippetsList.tsx:219-230 | appending an absent element and then removing it gives back the original list |
| SeqUtil.FirstIndexIs | client/app/components/SnippetsList.tsx:221 | `indexOf` returns the index of the first occurrence |
| Auth.Digit | server/internal/auth/crypto.go:19 | the standard base64 alphabet: values below 62 map to letters and digits, 62 to `+`, 63 to `/` |
| Auth.Quantum | server/internal/auth/crypto.go:19 | one to three bytes encode to four characters, padded with `=` exactly in the positions past the input |
| Auth.Encode | server/internal/auth/crypto.go:19 | n bytes encode to 4·⌈n/3⌉ characters, each an alphabet character or padding |
| Auth.EncodeEightBytes | server/internal/auth/crypto.go:13-19 | eight bytes encode to 12 characters with exactly one trailing `=` |
| Auth.RemoveSymbols | server/internal/auth/crypto.go:22-29 | the loop keeps exactly the characters other than `+`, `/` and `=`, in order |
| Auth.WithoutSymbolsHasNone | server/internal/auth/crypto.go:22-29 | the result contains none of the removed symbols |
| Auth.WithoutSymbolsAppend | server/internal/auth/crypto.go:24-29 | filtering distributes over concatenation |
| Auth.WithoutSymbolsCounts | server/internal/auth/crypto.go:24-29 | every character other than a symbol keeps its number of occurrences |
| Auth.WithoutSymbolsLength | server/internal/auth/crypto.go:24-29 | the result is never longer, and has the same length iff there was no symbol |
| Auth.WithoutSymbolsIdempotent | server/internal/auth/crypto.go:24-29 | filtering twice equals filtering once |
| Auth.NewSecureId | server/internal/auth/crypto.go:11-32 | the ID is the filtered encoding of the eight bytes, at most 11 ASCII letters and digits, and exactly 11 iff the encoding has no `+` or `/` |
| StableSort.SortPermutation | client/lib/hooks/queries/use-snippets.ts:46 | the sorted copy is a permutation of the input |
| StableSort.SortSorted | client/lib/hooks/queries/use-snippets.ts:46-62 | under a comparator that is a total preorder on the input, the result is ordered |
| StableSort.SortStable | client/lib/hooks/queries/use-snippets.ts:46-62 | elements that compare equal keep their relative input order |
| StableSort.SortIdempotent | client/lib/hooks/queries/use-snippets.ts:46-62 | sorting a sorted copy again changes nothing |
| StableSort.StableSortIsUnique | client/lib/hooks/queries/use-snippets.ts:46-62 | any ordered permutation that keeps ties in input order equals the sort's result |
| ClientTypes.LocaleCompareOrders | client/app/components/SnippetsList.tsx:55 | under a valid host, `localeCompare` is a total preorder on any strings |
| ClientTypes.TypedFieldsHomogeneous | client/lib/types.ts:1-11 | in snippets of the declared types, every sortable field has the same kind in all snippets |
| ClientTypes.ByFieldPreorder | client/lib/hooks/queries/use-snippets.ts:46-62 | a kind-consistent value comparator on a homogeneous field, in either direction, is a total preorder |
| ClientTypes.FieldSortCorrect | client/lib/hooks/queries/use-snippets.ts:46-62 | such a sort returns an ordered, stable permutation |
| ClientTypes.LexAntisymmetric | client/app/components/SnippetsList.tsx:55 | code-point order is antisymmetric |
| ClientTypes.LexTransitive | client/app/components/SnippetsList.tsx:55 | code-point order is transitive |
| UseSnippets.SnippetKeysDistinct | client/lib/hooks/queries/use-snippets.ts:37-43 | each group key selects a different field |
| UseSnippets.SortSnippets | client/lib/hooks/queries/use-snippets.ts:45-63 | the result is a permutation of the input, of the same length |
| UseSnippets.CompareKindConsistent | client/lib/hooks/queries/use-snippets.ts:49-59 | on two values of one kind, the comparison is a total preorder |
| UseSnippets.SortSnippetsOrdered | client/lib/hooks/queries/use-snippets.ts:46-62 | on a homogeneous field the result is an ordered, stable permutation in the chosen direction |
| UseSnippets.FavoritesLast | client/lib/hooks/queries/use-snippets.ts:53-54 | grouped by favourite in ascending order, no favourite precedes a non-favourite |
| UseSnippets.DescendingReversesAscending | client/lib/hooks/queries/use-snippets.ts:61 | for every pair, the descending comparator gives the negation of the ascending one; the descending result is non-increasing under the ascending comparator |
| UseSnippets.MixedKindsInconsistent | client/lib/hooks/queries/use-snippets.ts:55-58 | across kinds the comparison is not transitive: 2 < 10 < "15" but 2 > "15" |
| SnippetQueries.KeyOfDistinct | client/lib/hooks/queries/snippets.ts:67-86 | each sort option selects a different field |
| SnippetQueries.SortSnippets | client/lib/hooks/queries/snippets.ts:64-101 | the result is a permutation of the input, of the same length |
| SnippetQueries.CompareKindConsistent | client/lib/hooks/queries/snippets.ts:89-97 | on values of one kind the comparison is a total preorder |
| SnippetQueries.SortSnippetsOrdered | client/lib/hooks/queries/snippets.ts:88-100 | on a homogeneous field the result is an ordered, stable permutation in the chosen direction |
| SnippetQueries.UnsupportedKindsKeepOrder | client/lib/hooks/queries/snippets.ts:89-97 | when no pair of values is two strings, two dates or two booleans, the input order is kept |
| SnippetQueries.FavoritesLast | client/lib/hooks/queries/snippets.ts:95-96 | sorted by favourites ascending, no favourite precedes a non-favourite |
| SnippetQueries.DescendingReversesAscending | client/lib/hooks/queries/snippets.ts:99 | for every pair, the descending comparator gives the negation of the ascending one |
| SnippetQueries.MixedKindsInconsistent | client/lib/hooks/queries/snippets.ts:89-97 | mixed kinds compare equal, so "b" ~ true ~ "a" although "b" > "a": not transitive |
| Common.UrlEncodeSmall | client/lib/common.ts:11-13 | no values encode to the empty string, one value to `key=value` |
| Common.UrlEncodeExample | client/lib/common.ts:5-6 | `tags` with a, b, c encodes to `tags=a&tags=b&tags=c` |
| Common.UrlEncodeLength | client/lib/common.ts:11-13 | the length is the total of the pairs' lengths plus one separator between neighbours |
| Common.SplitJoin | client/lib/common.ts:12 | splitting a join of `&`-free parts at `&` gives the parts back |
| Common.UrlEncodeSplits | client/lib/common.ts:11-13 | for `&`-free keys and values, splitting the encoding at `&` yields `key=value` for each value in order |
| SnippetsListView.SortSnippets | client/app/components/SnippetsList.tsx:84-110 | the result is a permutation of the input, of the same length |
| SnippetsListView.CompareKindConsistent | client/app/components/SnippetsList.tsx:93-106 | on values of one kind the comparison is a total preorder |
| SnippetsListView.SortSnippetsOrdered | client/app/components/SnippetsList.tsx:89-109 | on a homogeneous field the result is an ordered, stable permutation in the chosen direction |
| SnippetsListView.FavoritesLast | client/app/components/SnippetsList.tsx:98-102 | sorted by favourite ascending, no favourite precedes a non-favourite |
| SnippetsListView.DescendingReversesAscending | client/app/components/SnippetsList.tsx:108 | for every pair, the "desc" comparator gives the negation of the ascending one |
| SnippetsListView.NumbersCompareAsText | client/app/components/SnippetsList.tsx:103-106 | with no numeric branch, 10 is ordered before 2 |
| SnippetsListView.SortLabelsRoundTrip | client/app/components/SnippetsList.tsx:128-165 | choosing a field's label selects that field, different fields have different labels, and an unknown option selects the creation date |
| SnippetsListView.OrderLabelsRoundTrip | client/app/components/SnippetsList.tsx:181-198 | choosing a direction's label selects that direction, and an unknown option selects descending |
| SnippetsListView.ReplaceById | client/app/components/SnippetsList.tsx:73-75 | every snippet with the updated id is replaced, every other one kept in place |
| SnippetsListView.ReplaceByIdContents | client/app/components/SnippetsList.tsx:73-75 | if the id occurs, the updated snippet is in the list and no outdated copy with that id remains; otherwise the list is unchanged |
| SnippetsListView.UpdateLocallyContents | client/app/components/SnippetsList.tsx:70-81 | the re-sorted list keeps its length, holds the updated snippet iff some snippet had its id, and otherwise exactly the snippets with other ids |
| SnippetsListView.ToggleTagProperties | client/app/components/SnippetsList.tsx:219-231 | toggling a tag flips its membership, keeps the list duplicate-free, and toggling twice restores the list |
| SnippetsListView.FetchedTagsOrdered | client/app/components/SnippetsList.tsx:51-56 | the tag list is sorted with `localeCompare`, a permutation of what was fetched |
| SnippetsListView.SnippetsList.constructor | client/app/components/SnippetsList.tsx:23-30 | initially no snippets or tags, empty search, sorted by creation date descending, loading, no error |
| SnippetsListView.SnippetsList.BeginFetch | client/app/components/SnippetsList.tsx:33-41 | loading is set and the request path is `/snippets?q=` + the encoded search + `&` + the encoded tags, with the current sort |
| SnippetsListView.SnippetsList.ResolveFetch | client/app/components/SnippetsList.tsx:42-66 | success stores the snippets sorted by the request's settings and the tags sorted by `localeCompare`; a 404 from either request empties the list without recording an error; any other failure keeps what was set before it and records its message; an earlier error is never cleared; loading always ends |
| SnippetsListView.SnippetsList.UpdateSnippetLocally | client/app/components/SnippetsList.tsx:70-81 | the list becomes the sorted list with the snippet replaced by id |
| SnippetsListView.SnippetsList.SelectSortOption | client/app/components/SnippetsList.tsx:138-165 | the sort field becomes the option's field, creation date by default |
| SnippetsListView.SnippetsList.SelectOrderOption | client/app/components/SnippetsList.tsx:186-198 | the direction becomes the option's, descending by default |
| SnippetsListView.SnippetsList.ToggleSearchTag | client/app/components/SnippetsList.tsx:219-231 | a selected tag is removed at its first index, an unselected one appended |
| SnippetsListView.SnippetsList.SearchChanged | client/app/components/SnippetsList.tsx:247-249 | the search text is replaced |
| SnippetsListItemView.MergeProperties | client/app/components/SnippetsListItem.tsx:56 | each of title, description, content, language, tags and isFavorite takes the patch's value when patched and is kept otherwise; the id and the timestamps are kept; merging the same patch again changes nothing, and an empty patch changes nothing |
| SnippetsListItemView.SnippetsListItem.constructor | client/app/components/SnippetsListItem.tsx:35-40 | not deleted, not updating, no error, not expanded, local copy and editor start from the prop |
| SnippetsListItemView.SnippetsListItem.BeginUpdate | client/app/components/SnippetsListItem.tsx:49-60 | while an update is in flight or awaiting its refresh nothing happens; otherwise the patch is merged into the local copy, sent to `/snippets/<id>`, and recorded with the prop as the fallback, with nothing else changed |
| SnippetsListItemView.SnippetsListItem.ResolveUpdate | client/app/components/SnippetsListItem.tsx:62-84 | success adopts the server's snippet or the optimistic one, notifies the parent and ends the update; failure reverts to the prop and records the message; on status 500 or above it asks for a refresh and stays updating, otherwise the update ends |
| SnippetsListItemView.SnippetsListItem.ResolveRefresh | client/app/components/SnippetsListItem.tsx:79-84 | once the awaited refresh settles, the `finally` clears the updating flag and nothing else changes |
| SnippetsListItemView.SnippetsListItem.BeginDelete | client/app/components/SnippetsListItem.tsx:87-92 | while updating nothing is sent; otherwise the delete path `/snippets/<id>` |
| SnippetsListItemView.SnippetsListItem.ResolveDelete | client/app/components/SnippetsListItem.tsx:92-100 | success marks the item deleted; failure records the message and refreshes on status 500 or above |
| SnippetsListItemView.SnippetsListItem.ToggleFavorite | client/app/components/SnippetsListItem.tsx:103-107 | when no update is out, starts the update that flips the local favourite flag: the local copy differs only in that flag and the rest of the state is as `BeginUpdate` leaves it; otherwise nothing |
| SnippetsListItemView.SnippetsListItem.UpdateTitle | client/app/components/SnippetsListItem.tsx:109-113 | a title different from the local one starts an update whose only change is the title, with the rest of the state as `BeginUpdate` leaves it; an unchanged title, or an update already out, sends nothing |
| SnippetsListItemView.SnippetsListItem.SaveContent | client/app/components/SnippetsListItem.tsx:115-119 | edited content that differs from the local content starts an update whose only change is the content, with the rest of the state as `BeginUpdate` leaves it; otherwise nothing |
| SnippetsListItemView.SnippetsListItem.EditContent | client/app/components/SnippetsListItem.tsx:214 | only the editor text changes |
| SnippetsListItemView.SnippetsListItem.DismissError | client/app/components/SnippetsListItem.tsx:142 | only the error is cleared |
| SnippetsListItemView.SnippetsListItem.ReceiveProps | client/app/components/SnippetsListItem.tsx:38-40 | a new prop replaces the snippet but not the local copy or the editor text, which `useState` initialised once |

## Left out

- Locking: the store's two read/write mutexes are not modelled, and each operation runs as one atomic step. `updateTags` holds `tagsMu` (server/internal/storage/storage.go:240-241) and then calls `CreateTags` and `DeleteTags`, which lock it again (storage.go:184, 219). Go mutexes are not re-entrant, and `updateTags` always reaches `DeleteTags`, so in the program that call never returns. `Storage.MemoryStore.UpdateTags` models the effect the code would have if the lock were re-entrant.
- Storage.MemoryStore.UpdateSnippet: in the program a patch carrying a `tags` array never returns, because its tag update blocks on `tagsMu` as described above. The contract states the effect it would have with a re-entrant lock.
- Storage.MemoryStore.ReplaceTags: models the `tags` branch of `UpdateSnippet`, which reaches the same blocking `updateTags` call; its contract likewise states the effect it would have with a re-entrant lock.
- Logging through zap and its messages are left out: they change no state.
- Go map iteration order, the clock (`time.Now`), `uuid.New` and `crypto/rand` are not modelled. The model takes an arbitrary key, a `now` parameter, the id, or the eight bytes instead.
- Models.Snippet: the ID is a constant. The HTTP handlers that overwrite it (server/internal/api/handlers.go) and all request decoding are not part of this model.
- Storage.Json: JSON numbers are integers, not float64. Only the kind of each value matters to the store.
- GoStrings.ToLower: maps only ASCII letters; Go's `strings.ToLower` also lower-cases the other Unicode letters, and the model treats a string as a sequence of code points, not UTF-8 bytes.
- Auth.Encode: implements the standard base64 alphabet and padding itself rather than calling Go's `encoding/base64`.
- ClientTypes.Host: `localeCompare`, `Date.prototype.toString` and `encodeURI` are parameters. Their locale- and time-zone-dependent results are not modelled beyond `localeCompare` being a total preorder.
- ClientTypes.Value: dates are integer millisecond times and numbers are integers. NaN, invalid dates and fractional numbers are not modelled.
- StableSort.Sort: when a field mixes kinds the comparator is inconsistent. ECMA-262 then leaves the order implementation-defined, and the model returns one particular permutation (the insertion sort's).
- The client's HTTP layer (axios), the react-query caching and invalidation around `useSnippets` and its mutations, and the client API wrappers are left out. Only their `select` sorting step is modelled.
- React rendering, effects and re-fetching on dependency changes are left out. So are the dropdown and tag-count views, the `isExpanded` toggle on click and the `useStatefulBool` hook, which simply holds a boolean.
- SnippetsListView.SnippetsList: handlers read state that has already been committed. Two events handled within one render see the same stale closure in the program, and the model does not capture that.
- SnippetsListItemView.SnippetsListItem.BeginUpdate: the in-flight guard reads the current state. A second click in the same render, which reads the stale `isUpdating`, is not modelled.
- SnippetsListItemView.Patch: a property explicitly set to `undefined` in the spread is not representable. Each patched field is present with a value or absent.
- The "Edit" dropdown option does nothing in the program and has no model.
