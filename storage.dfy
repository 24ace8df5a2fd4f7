/** The in-memory store (server/internal/storage/storage.go): a map from id
    to snippet record and a map from tag to reference count, both changed in
    place. Locking and logging are not modelled; Go's unspecified map
    iteration order is a nondeterministic choice of the next key; the clock
    is a parameter. */
module Storage {
  import opened Wrappers
  import opened SeqUtil
  import opened GoStrings
  import opened Models

  /** `ErrSnippetNotFound`, the only error the store reports. */
  datatype StoreError = SnippetNotFound

  /** A value decoded from a JSON request body into Go's `any`. Numbers are
      float64 in Go; only their kind matters to the store. */
  datatype Json =
    | JString(str: string)
    | JBool(flag: bool)
    | JNumber(num: int)
    | JNull
    | JArray(items: seq<Json>)
    | JObject(fields: map<string, Json>)

  // ---------------------------------------------------------------------
  // Tag reference counts

  /** The tags `ListTags` reports: those whose count is at least 1. */
  function Live(m: map<string, int>): set<string> {
    set t | t in m && m[t] >= 1
  }

  predicate CountsAtMostOne(m: map<string, int>) {
    forall t | t in m :: 0 <= m[t] <= 1
  }

  /** The tag map after `CreateTags` with the tags `ts`: a tag not yet in the
      map gets count 1, a tag already there keeps its count, whatever it is. */
  function CreatedTags(m: map<string, int>, ts: set<string>): map<string, int> {
    map t | t in m.Keys + ts :: if t in m then m[t] else 1
  }

  /** Creating tags makes exactly the new ones live: a tag whose entry sits at
      count 0 is not revived. */
  lemma CreatedTagsLive(m: map<string, int>, ts: set<string>)
    ensures Live(CreatedTags(m, ts)) == Live(m) + (ts - m.Keys)
    ensures forall t | t in m :: CreatedTags(m, ts)[t] == m[t]
  {
    var r := CreatedTags(m, ts);
    forall t ensures t in Live(r) <==> t in Live(m) + (ts - m.Keys) {
      if t in m {
        assert r[t] == m[t];
      } else if t in ts {
        assert r[t] == 1;
      }
    }
  }

  /** `CreateTags` never raises a count above 1. */
  lemma CreatedTagsAtMostOne(m: map<string, int>, ts: set<string>)
    requires CountsAtMostOne(m)
    ensures CountsAtMostOne(CreatedTags(m, ts))
  {
    var r := CreatedTags(m, ts);
    forall t | t in r ensures 0 <= r[t] <= 1 {
      if t in m { assert r[t] == m[t]; } else { assert r[t] == 1; }
    }
  }

  /** Creating in two rounds is creating the union; so creating the same tags
      again changes nothing. */
  lemma CreatedTagsCompose(m: map<string, int>, a: set<string>, b: set<string>)
    ensures CreatedTags(CreatedTags(m, a), b) == CreatedTags(m, a + b)
    ensures CreatedTags(CreatedTags(m, a), a) == CreatedTags(m, a)
  {
    var l, r := CreatedTags(CreatedTags(m, a), b), CreatedTags(m, a + b);
    assert l.Keys == r.Keys;
    forall t | t in l ensures l[t] == r[t] {
      if t in m {
        assert CreatedTags(m, a)[t] == m[t];
      } else if t in a {
        assert CreatedTags(m, a)[t] == 1;
      }
    }
    var l2 := CreatedTags(CreatedTags(m, a), a);
    assert l2.Keys == CreatedTags(m, a).Keys;
    forall t | t in l2 ensures l2[t] == CreatedTags(m, a)[t] {
    }
  }

  /** One outcome of `DeleteTags` with a live tag found: the zero-count
      entries visited before `k` are dropped and `k` is decremented; every
      other entry is kept as it was. */
  ghost predicate DecrementedAt(before: map<string, int>, after: map<string, int>, k: string) {
    && k in before && before[k] >= 1
    && k in after && after[k] == before[k] - 1
    && after.Keys <= before.Keys
    && (forall t | t in after && t != k :: after[t] == before[t])
    && (forall t | t in before && t !in after :: before[t] < 1)
  }

  /** The outcome of `DeleteTags` when no tag is live: every entry is dropped. */
  ghost predicate AllDropped(before: map<string, int>, after: map<string, int>) {
    (forall t | t in before :: before[t] < 1) && after == map[]
  }

  /** Every outcome `DeleteTags` can reach, over all iteration orders. */
  ghost predicate DeleteTagsOutcome(before: map<string, int>, after: map<string, int>) {
    AllDropped(before, after) || exists k :: DecrementedAt(before, after, k)
  }

  /** `DeleteTags` retires exactly one live tag when there is one, whichever
      tags it was asked to delete, and none otherwise; counts stay within
      0..1. */
  lemma DeleteTagsLive(before: map<string, int>, after: map<string, int>)
    requires CountsAtMostOne(before) && DeleteTagsOutcome(before, after)
    ensures CountsAtMostOne(after)
    ensures Live(before) == {} ==> Live(after) == {}
    ensures Live(before) != {} ==>
      exists k :: k in Live(before) && Live(after) == Live(before) - {k}
  {
    if AllDropped(before, after) {
      assert Live(before) == {};
    } else {
      var k :| DecrementedAt(before, after, k);
      assert k in Live(before);
      forall t ensures t in Live(after) <==> t in Live(before) - {k} {
        if t in after && t != k {
          assert after[t] == before[t];
        }
      }
    }
  }

  /** `updateTags` never makes a tag live that was only in the new list:
      contrary to its documentation, tags new in a patch are not added. */
  lemma UpdateTagsAddsNothingNew(before: map<string, int>, after: map<string, int>,
                                 oldTags: seq<string>, changes: seq<string>, t: string)
    requires CountsAtMostOne(before)
    requires DeleteTagsOutcome(CreatedTags(before, Elems(oldTags) * Elems(changes)), after)
    requires t !in oldTags && t !in Live(before)
    ensures t !in Live(after)
  {
    var mid := CreatedTags(before, Elems(oldTags) * Elems(changes));
    CreatedTagsLive(before, Elems(oldTags) * Elems(changes));
    CreatedTagsAtMostOne(before, Elems(oldTags) * Elems(changes));
    DeleteTagsLive(mid, after);
    assert t !in Live(mid);
  }

  // ---------------------------------------------------------------------
  // Search helpers

  /** `hasAnyTag`'s specification: some requested tag is on the snippet. */
  predicate SharesTag(snippetTags: seq<string>, wanted: seq<string>) {
    exists i | 0 <= i < |wanted| :: wanted[i] in snippetTags
  }

  /** `hasAnyTag`: scans the requested tags in order, stopping at the first
      one the snippet carries. */
  method HasAnyTag(snippet: Snippet, wanted: seq<string>) returns (b: bool)
    ensures b <==> SharesTag(snippet.tags, wanted)
  {
    for i := 0 to |wanted|
      invariant forall j | 0 <= j < i :: wanted[j] !in snippet.tags
    {
      if wanted[i] in snippet.tags {
        return true;
      }
    }
    return false;
  }

  /** `containsIgnoreCase`: substring search after lower-casing both sides. */
  predicate ContainsIgnoreCase(text: string, sub: string) {
    Contains(ToLower(text), ToLower(sub))
  }

  /** An exact occurrence is in particular an occurrence ignoring case, and
      lower-casing either side first changes nothing. */
  lemma ContainsIgnoreCaseProperties(text: string, sub: string)
    ensures Contains(text, sub) ==> ContainsIgnoreCase(text, sub)
    ensures ContainsIgnoreCase(ToLower(text), sub) == ContainsIgnoreCase(text, sub)
    ensures ContainsIgnoreCase(text, ToLower(sub)) == ContainsIgnoreCase(text, sub)
  {
    ToLowerIdempotent(text);
    ToLowerIdempotent(sub);
    if Contains(text, sub) {
      var i :| 0 <= i <= |text| && OccursAt(text, sub, i);
      assert OccursAt(ToLower(text), ToLower(sub), i) by {
        forall j | 0 <= j < |sub| ensures ToLower(text)[i + j] == ToLower(sub)[j] {
          assert text[i + j] == text[i..i + |sub|][j];
        }
        assert ToLower(text)[i..i + |sub|] == ToLower(sub);
      }
    }
  }

  /** `anyFieldContainsQuery`: an empty query matches nothing; otherwise the
      title, content, description or language must contain it, ignoring
      case, so in particular an exact occurrence in any of them matches. */
  function AnyFieldContainsQuery(s: Snippet, query: string): (b: bool)
    reads s
    ensures b ==> query != ""
    ensures query != "" && Contains(s.title, query) ==> b
    ensures query != "" && Contains(s.content, query) ==> b
    ensures query != "" && Contains(s.description, query) ==> b
    ensures query != "" && Contains(s.language, query) ==> b
  {
    ContainsIgnoreCaseProperties(s.title, query);
    ContainsIgnoreCaseProperties(s.content, query);
    ContainsIgnoreCaseProperties(s.description, query);
    ContainsIgnoreCaseProperties(s.language, query);
    && query != ""
    && (|| ContainsIgnoreCase(s.title, query)
        || ContainsIgnoreCase(s.content, query)
        || ContainsIgnoreCase(s.description, query)
        || ContainsIgnoreCase(s.language, query))
  }

  /** Why the empty query needs its own guard: every field contains the
      empty string, ignoring case or not, yet the empty query matches no
      snippet. Without the guard an empty query would match them all. */
  lemma EmptyQueryMatchesNothing(s: Snippet)
    ensures ContainsIgnoreCase(s.title, "") && ContainsIgnoreCase(s.content, "")
    ensures ContainsIgnoreCase(s.description, "") && ContainsIgnoreCase(s.language, "")
    ensures !AnyFieldContainsQuery(s, "")
  {
    ContainsEmpty(ToLower(s.title));
    ContainsEmpty(ToLower(s.content));
    ContainsEmpty(ToLower(s.description));
    ContainsEmpty(ToLower(s.language));
  }

  /** The query as `ListSnippets` uses it: trimmed, then lower-cased. */
  function NormalizeQuery(query: string): (q: string)
    ensures q == "" <==> TrimSpace(query) == ""
  {
    ToLower(TrimSpace(query))
  }

  /** The filter of the `ListSnippets` loop: a shared tag or a matching
      field. */
  predicate Matches(s: Snippet, wanted: seq<string>, q: string)
    reads s
  {
    SharesTag(s.tags, wanted) || AnyFieldContainsQuery(s, q)
  }

  /** Whether `ListSnippets` reports a stored snippet: a nil tag list with an
      empty query lets everything through; otherwise a shared tag or a
      matching field is needed. */
  ghost predicate Listed(s: Snippet, tags: Option<seq<string>>, q: string)
    reads s
  {
    (tags.None? && q == "") || Matches(s, tags.GetOr([]), q)
  }

  // ---------------------------------------------------------------------
  // The store

  class MemoryStore {
    var snippets: map<string, Snippet>
    var tags: map<string, int>

    /** Every snippet is filed under its own id, and no tag count leaves
        0..1. */
    ghost predicate Valid()
      reads this
    {
      && (forall k | k in snippets :: snippets[k].id == k)
      && CountsAtMostOne(tags)
    }

    /** `NewMemoryStore`: both maps empty. */
    constructor ()
      ensures Valid()
      ensures snippets == map[] && tags == map[]
    {
      snippets := map[];
      tags := map[];
    }

    /** `CreateSnippet`: registers the snippet's tags, then files the snippet
        under its id, silently replacing any snippet with that id. It never
        fails. */
    method CreateSnippet(snippet: Snippet)
      requires Valid()
      modifies this
      ensures Valid()
      ensures snippets == old(snippets)[snippet.id := snippet]
      ensures tags == CreatedTags(old(tags), Elems(snippet.tags))
      ensures Live(tags) == Live(old(tags)) + (Elems(snippet.tags) - old(tags).Keys)
    {
      CreateTags(snippet.tags);
      snippets := snippets[snippet.id := snippet];
      CreatedTagsLive(old(tags), Elems(snippet.tags));
    }

    /** `GetSnippet`: the stored record itself, or not-found. */
    method GetSnippet(id: string) returns (r: Result<Snippet, StoreError>)
      requires Valid()
      ensures id in snippets ==> r == Ok(snippets[id]) && r.value.id == id
      ensures id !in snippets ==> r == Err(SnippetNotFound)
    {
      if id !in snippets {
        return Err(SnippetNotFound);
      }
      return Ok(snippets[id]);
    }

    /** The string a patch sets for `key`, if it carries a string there. */
    static function PatchedString(updates: map<string, Json>, key: string, current: string): string {
      if key in updates && updates[key].JString? then updates[key].str else current
    }

    /** An element of a `tags` patch: a string stays, anything else is Go's
        zero string. */
    static function TagOf(v: Json): string {
      if v.JString? then v.str else ""
    }

    /** `UpdateSnippet`: changes, on the stored record itself, each field the
        patch sets with the right JSON kind; an array under "tags" replaces
        the tag list element by element and runs the tag diff; `updatedAt`
        is stamped on every call. An absent id changes nothing. */
    method UpdateSnippet(id: string, updates: map<string, Json>, now: int) returns (r: Result<Snippet, StoreError>)
      requires Valid()
      modifies this, if id in snippets then {snippets[id]} else {}
      ensures Valid()
      ensures snippets == old(snippets)
      ensures id !in snippets ==> r == Err(SnippetNotFound) && tags == old(tags)
      ensures id in snippets ==>
        var s := snippets[id];
        && r == Ok(s) && s.id == id
        && s.title == PatchedString(updates, "title", old(s.title))
        && s.description == PatchedString(updates, "description", old(s.description))
        && s.content == PatchedString(updates, "content", old(s.content))
        && s.language == PatchedString(updates, "language", old(s.language))
        && s.isFavorite == (if "isFavorite" in updates && updates["isFavorite"].JBool?
                            then updates["isFavorite"].flag else old(s.isFavorite))
        && s.createdAt == old(s.createdAt)
        && s.updatedAt == now
    ensures id in snippets && "tags" in updates && updates["tags"].JArray? ==>
        var s, items := snippets[id], updates["tags"].items;
        && |s.tags| == |items|
        && (forall i | 0 <= i < |items| :: s.tags[i] == TagOf(items[i]))
        && DeleteTagsOutcome(CreatedTags(old(tags), Elems(old(s.tags)) * Elems(s.tags)), tags)
    ensures id in snippets && !("tags" in updates && updates["tags"].JArray?) ==>
        snippets[id].tags == old(snippets[id].tags) && tags == old(tags)
    {
      if id !in snippets {
        return Err(SnippetNotFound);
      }
      var snippet := snippets[id];
      PatchText(snippet, updates);
      if "tags" in updates && updates["tags"].JArray? {
        ReplaceTags(snippet, updates["tags"].items);
      }
      if "isFavorite" in updates && updates["isFavorite"].JBool? {
        snippet.isFavorite := updates["isFavorite"].flag;
      }
      snippet.updatedAt := now;
      return Ok(snippet);
    }

    /** The string steps of `UpdateSnippet`: title, description, content and
        language each change only when the patch holds a string under that
        key. */
    static method PatchText(snippet: Snippet, updates: map<string, Json>)
      modifies snippet
      ensures snippet.title == PatchedString(updates, "title", old(snippet.title))
      ensures snippet.description == PatchedString(updates, "description", old(snippet.description))
      ensures snippet.content == PatchedString(updates, "content", old(snippet.content))
      ensures snippet.language == PatchedString(updates, "language", old(snippet.language))
      ensures snippet.tags == old(snippet.tags) && snippet.isFavorite == old(snippet.isFavorite)
      ensures snippet.createdAt == old(snippet.createdAt) && snippet.updatedAt == old(snippet.updatedAt)
    {
      if "title" in updates && updates["title"].JString? {
        snippet.title := updates["title"].str;
      }
      if "description" in updates && updates["description"].JString? {
        snippet.description := updates["description"].str;
      }
      if "content" in updates && updates["content"].JString? {
        snippet.content := updates["content"].str;
      }
      if "language" in updates && updates["language"].JString? {
        snippet.language := updates["language"].str;
      }
    }

    /** The "tags" step of `UpdateSnippet`: the new list has one entry per
        array element, then the tag diff runs from the old list to the new
        one, then the new list is stored on the record. */
    method ReplaceTags(snippet: Snippet, items: seq<Json>)
      requires CountsAtMostOne(tags)
      modifies this, snippet
      ensures snippets == old(snippets) && CountsAtMostOne(tags)
      ensures |snippet.tags| == |items|
      ensures forall i | 0 <= i < |items| :: snippet.tags[i] == TagOf(items[i])
      ensures DeleteTagsOutcome(CreatedTags(old(tags), Elems(old(snippet.tags)) * Elems(snippet.tags)), tags)
      ensures snippet.title == old(snippet.title) && snippet.description == old(snippet.description)
      ensures snippet.content == old(snippet.content) && snippet.language == old(snippet.language)
      ensures snippet.isFavorite == old(snippet.isFavorite)
      ensures snippet.createdAt == old(snippet.createdAt) && snippet.updatedAt == old(snippet.updatedAt)
    {
      var newTags := seq(|items|, _ => "");
      for i := 0 to |items|
        invariant |newTags| == |items|
        invariant forall j | 0 <= j < i :: newTags[j] == TagOf(items[j])
        invariant forall j | i <= j < |items| :: newTags[j] == ""
      {
        if items[i].JString? {
          newTags := newTags[i := items[i].str];
        }
      }
      UpdateTags(snippet.tags, newTags);
      snippet.tags := newTags;
    }

    /** `DeleteSnippet`: on a present id, runs `DeleteTags` (which retires one
        arbitrary live tag, not necessarily one of this snippet's) and removes
        exactly that key. An absent id changes nothing. */
    method DeleteSnippet(id: string) returns (err: Option<StoreError>)
      requires Valid()
      modifies this
      ensures Valid()
      ensures id !in old(snippets) ==>
        err == Some(SnippetNotFound) && snippets == old(snippets) && tags == old(tags)
      ensures id in old(snippets) ==>
        && err == None
        && snippets == old(snippets) - {id}
        && DeleteTagsOutcome(old(tags), tags)
    {
      if id !in snippets {
        return Some(SnippetNotFound);
      }
      var snippet := snippets[id];
      DeleteTags(snippet.tags);
      snippets := snippets - {id};
      return None;
    }

    /** `slices.Collect(maps.Values(...))`: every stored snippet once, in
        unspecified order. */
    method AllSnippets() returns (results: seq<Snippet>)
      requires Valid()
      ensures Elems(results) == snippets.Values
      ensures NoDuplicates(results)
    {
      results := [];
      var remaining := snippets.Keys;
      while remaining != {}
        invariant remaining <= snippets.Keys
        invariant forall s | s in results :: s in snippets.Values && s.id !in remaining
        invariant forall k | k in snippets && k !in remaining :: snippets[k] in results
        invariant NoDuplicates(results)
        decreases remaining
      {
        var k :| k in remaining;
        results := results + [snippets[k]];
        remaining := remaining - {k};
      }
    }

    /** `ListSnippets`: with a nil tag list and a blank query, every stored
        snippet; otherwise exactly the snippets that carry a requested tag or
        whose text fields contain the trimmed query ignoring case; each at
        most once, in unspecified order. */
    method ListSnippets(tags: Option<seq<string>>, query: string) returns (results: seq<Snippet>)
      requires Valid()
      ensures forall s :: s in results <==> s in snippets.Values && Listed(s, tags, NormalizeQuery(query))
      ensures NoDuplicates(results)
      ensures tags.None? && TrimSpace(query) == "" ==> Elems(results) == snippets.Values
      ensures tags == Some([]) && TrimSpace(query) == "" ==> results == []
    {
      var q := NormalizeQuery(query);
      if tags.None? && q == "" {
        results := AllSnippets();
        return;
      }
      results := CollectMatching(tags.GetOr([]), q);
    }

    /** The loop of `ListSnippets`: every stored snippet that carries a
        wanted tag or matches the query, once each. */
    method CollectMatching(wanted: seq<string>, q: string) returns (results: seq<Snippet>)
      requires Valid()
      ensures forall s :: s in results <==> s in snippets.Values && Matches(s, wanted, q)
      ensures NoDuplicates(results)
      ensures wanted == [] && q == "" ==> results == []
    {
      results := [];
      var remaining := snippets.Keys;
      while remaining != {}
        invariant remaining <= snippets.Keys
        invariant forall s | s in results :: s in snippets.Values && s.id !in remaining && Matches(s, wanted, q)
        invariant forall k | k in snippets && k !in remaining && Matches(snippets[k], wanted, q) :: snippets[k] in results
        invariant NoDuplicates(results)
        invariant wanted == [] && q == "" ==> results == []
        decreases remaining
      {
        var k :| k in remaining;
        var snippet := snippets[k];
        var has := HasAnyTag(snippet, wanted);
        if has {
          results := results + [snippet];
        } else if AnyFieldContainsQuery(snippet, q) {
          results := results + [snippet];
        }
        remaining := remaining - {k};
      }
    }

    /** `CreateTags`: each tag not yet in the map gets count 1; tags already
        present, live or not, keep their count. */
    method CreateTags(ts: seq<string>)
      modifies this
      ensures snippets == old(snippets)
      ensures tags == CreatedTags(old(tags), Elems(ts))
    {
      for i := 0 to |ts|
        invariant snippets == old(snippets)
        invariant tags == CreatedTags(old(tags), Elems(ts[..i]))
      {
        assert Elems(ts[..i + 1]) == Elems(ts[..i]) + {ts[i]} by {
          assert ts[..i + 1] == ts[..i] + [ts[i]];
        }
        CreatedTagsCompose(old(tags), Elems(ts[..i]), {ts[i]});
        if ts[i] !in tags {
          // `s.tags[tag] += 1` on a missing key
          tags := tags[ts[i] := 1];
        }
      }
      assert ts[..|ts|] == ts;
    }

    /** `ListTags`: exactly the live tags, each once, in unspecified order. */
    method ListTags() returns (results: seq<string>)
      ensures Elems(results) == Live(tags)
      ensures NoDuplicates(results)
    {
      results := [];
      var remaining := tags.Keys;
      while remaining != {}
        invariant remaining <= tags.Keys
        invariant forall t | t in results :: t in Live(tags) && t !in remaining
        invariant forall t | t in Live(tags) && t !in remaining :: t in results
        invariant NoDuplicates(results)
        decreases remaining
      {
        var t :| t in remaining;
        if tags[t] >= 1 {
          results := results + [t];
        }
        remaining := remaining - {t};
      }
    }

    /** `DeleteTags`: its argument is never read. It walks the map in
        unspecified order, dropping entries with count 0 until it meets a
        live one, which it decrements before stopping. */
    method DeleteTags(ignored: seq<string>)
      requires CountsAtMostOne(tags)
      modifies this
      ensures snippets == old(snippets)
      ensures DeleteTagsOutcome(old(tags), tags)
      ensures CountsAtMostOne(tags)
    {
      var remaining := tags.Keys;
      while remaining != {}
        invariant remaining == tags.Keys
        invariant snippets == old(snippets)
        invariant tags.Keys <= old(tags).Keys
        invariant forall t | t in tags :: tags[t] == old(tags)[t]
        invariant forall t | t in old(tags) && t !in tags :: old(tags)[t] < 1
        decreases remaining
      {
        var t :| t in remaining;
        if tags[t] >= 1 {
          tags := tags[t := tags[t] - 1];
          assert DecrementedAt(old(tags), tags, t);
          DeleteTagsLive(old(tags), tags);
          return;
        }
        tags := tags - {t};
        remaining := remaining - {t};
      }
      assert tags == map[];
      assert AllDropped(old(tags), tags);
      DeleteTagsLive(old(tags), tags);
    }

    /** `updateTags`: tags in both lists go through `CreateTags`, the rest of
        the old list is collected for `DeleteTags` (which ignores it). The
        effect is always one `DeleteTags` outcome over the map in which the
        common tags were created. */
    method UpdateTags(oldTags: seq<string>, changes: seq<string>)
      requires CountsAtMostOne(tags)
      modifies this
      ensures snippets == old(snippets)
      ensures DeleteTagsOutcome(CreatedTags(old(tags), Elems(oldTags) * Elems(changes)), tags)
      ensures CountsAtMostOne(tags)
    {
      var oldSet: set<string> := {};
      for i := 0 to |oldTags|
        invariant oldSet == Elems(oldTags[..i])
      {
        assert oldTags[..i + 1] == oldTags[..i] + [oldTags[i]];
        oldSet := oldSet + {oldTags[i]};
      }
      assert oldTags[..|oldTags|] == oldTags;
      var changeSet: set<string> := {};
      for i := 0 to |changes|
        invariant changeSet == Elems(changes[..i])
      {
        assert changes[..i + 1] == changes[..i] + [changes[i]];
        changeSet := changeSet + {changes[i]};
      }
      assert changes[..|changes|] == changes;

      var markedForDeletion: seq<string> := [];
      var remaining := oldSet;
      ghost var created: set<string> := {};
      while remaining != {}
        invariant remaining <= oldSet
        invariant created == (oldSet - remaining) * changeSet
        invariant tags == CreatedTags(old(tags), created)
        invariant snippets == old(snippets)
        decreases remaining
      {
        var t :| t in remaining;
        if t !in changeSet {
          markedForDeletion := markedForDeletion + [t];
        } else {
          CreateTags([t]);
          assert Elems([t]) == {t};
          CreatedTagsCompose(old(tags), created, {t});
          created := created + {t};
        }
        remaining := remaining - {t};
      }
      assert created == Elems(oldTags) * Elems(changes);
      CreatedTagsAtMostOne(old(tags), created);
      DeleteTags(markedForDeletion);
    }
  }
}
