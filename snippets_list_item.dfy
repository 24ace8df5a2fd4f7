/** One row of the list (client/app/components/SnippetsListItem.tsx). Its
    update and delete handlers are asynchronous; each is split into the
    request it sends and the state change the server's answer causes, so the
    row is a small state machine with at most one update in flight. */
module SnippetsListItemView {
  import opened Wrappers
  import opened ClientTypes

  /** `SnippetUpdateableFields`: each field either present or absent. */
  datatype Patch = Patch(
    title: Option<string>,
    description: Option<string>,
    content: Option<string>,
    language: Option<string>,
    tags: Option<seq<string>>,
    isFavorite: Option<bool>)

  const NoChanges: Patch := Patch(None, None, None, None, None, None)

  /** `{ ...snippet, ...updates }`: the patch's fields over the snippet's. */
  function Merge(s: Snippet, p: Patch): Snippet {
    s.(title := p.title.GetOr(s.title),
       description := p.description.GetOr(s.description),
       content := p.content.GetOr(s.content),
       language := p.language.GetOr(s.language),
       tags := p.tags.GetOr(s.tags),
       isFavorite := p.isFavorite.GetOr(s.isFavorite))
  }

  /** The optimistic merge keeps the id and the timestamps and every field
      the patch leaves out, takes every field the patch sets, and merging
      the same patch again changes nothing. */
  lemma MergeProperties(s: Snippet, p: Patch)
    ensures var r := Merge(s, p);
      && r.id == s.id && r.createdAt == s.createdAt && r.updatedAt == s.updatedAt
      && (p.title.None? ==> r.title == s.title) && (p.title.Some? ==> r.title == p.title.value)
      && (p.description.None? ==> r.description == s.description)
      && (p.description.Some? ==> r.description == p.description.value)
      && (p.content.None? ==> r.content == s.content) && (p.content.Some? ==> r.content == p.content.value)
      && (p.language.None? ==> r.language == s.language)
      && (p.language.Some? ==> r.language == p.language.value)
      && (p.isFavorite.None? ==> r.isFavorite == s.isFavorite)
      && (p.isFavorite.Some? ==> r.isFavorite == p.isFavorite.value)
      && (p.tags.None? ==> r.tags == s.tags) && (p.tags.Some? ==> r.tags == p.tags.value)
      && Merge(r, p) == r
    ensures Merge(s, NoChanges) == s
  {
  }

  /** `err.status >= 500`; a failure without a status never qualifies. */
  predicate Serious(status: Option<int>) {
    status.Some? && status.value >= 500
  }

  /** The values an update's closure holds while the request is out: the
      patch, the optimistic snippet, and the `snippet` prop to fall back
      to. */
  datatype InFlight = InFlight(patch: Patch, optimistic: Snippet, fallback: Snippet)

  /** `api.put(path, updates)`. */
  datatype UpdateRequest = UpdateRequest(path: string, body: Patch)

  /** The update's answer: a response, with or without data, or a failure. */
  datatype UpdateOutcome = Updated(data: Option<Snippet>) | UpdateFailed(status: Option<int>, message: string)

  /** The delete's answer. */
  datatype DeleteOutcome = Deleted | DeleteFailed(status: Option<int>, message: string)

  class SnippetsListItem {
    /** The `snippet` prop. */
    var snippet: Snippet
    var isDeleted: bool
    var isUpdating: bool
    var error: Option<string>
    var localSnippet: Snippet
    var isExpanded: bool
    var editedContent: string
    var inFlight: Option<InFlight>
    /** A failed update is awaiting `refreshList()` before its `finally`. */
    var refreshing: bool

    /** `isUpdating` is set exactly while an update is out or its failure is
        still awaiting the refresh, and never both at once. */
    ghost predicate Valid()
      reads this
    {
      && (isUpdating <==> inFlight.Some? || refreshing)
      && !(inFlight.Some? && refreshing)
    }

    /** An update began: the patch is merged into the local copy, the
        request and the closure's values are recorded, and nothing else
        changes. */
    twostate predicate UpdateStarted(updates: Patch, new req: Option<UpdateRequest>)
      reads this
    {
      && isUpdating && !refreshing
      && localSnippet == Merge(old(localSnippet), updates)
      && req == Some(UpdateRequest("/snippets/" + snippet.id, updates))
      && inFlight == Some(InFlight(updates, localSnippet, snippet))
      && snippet == old(snippet) && isDeleted == old(isDeleted) && error == old(error)
      && isExpanded == old(isExpanded) && editedContent == old(editedContent)
    }

    /** The initial state: the local copy and the editor start from the
        prop. */
    constructor (snippet: Snippet)
      ensures Valid()
      ensures this.snippet == snippet && localSnippet == snippet && editedContent == snippet.content
      ensures !isDeleted && !isUpdating && !isExpanded && error == None
    {
      this.snippet := snippet;
      isDeleted := false;
      isUpdating := false;
      error := None;
      localSnippet := snippet;
      isExpanded := false;
      editedContent := snippet.content;
      inFlight := None;
      refreshing := false;
    }

    /** The request half of `updateSnippet`: nothing while an update is out;
        otherwise the patch is merged into the local copy at once and sent
        to the server. */
    method BeginUpdate(updates: Patch) returns (req: Option<UpdateRequest>)
      requires Valid()
      modifies this
      ensures Valid()
      ensures old(isUpdating) ==> req == None && unchanged(this)
      ensures !old(isUpdating) ==> UpdateStarted(updates, req)
    {
      if isUpdating {
        return None;
      }
      isUpdating := true;
      var optimisticUpdate := Merge(localSnippet, updates);
      localSnippet := optimisticUpdate;
      inFlight := Some(InFlight(updates, optimisticUpdate, snippet));
      req := Some(UpdateRequest("/snippets/" + snippet.id, updates));
    }

    /** The answer half of `updateSnippet`. On success the server's snippet,
        or the optimistic one if none came back, becomes the local copy and
        is passed to `onUpdate`; a non-empty content patch also resets the
        editor, and the update is over. On failure the local copy reverts to
        the prop as it was when the update began, the error is recorded and
        `onUpdate` is not called; for a status of 500 or more the list is
        refreshed, and `isUpdating` stays set until that refresh settles
        (`ResolveRefresh`), otherwise the update is over. */
    method ResolveUpdate(outcome: UpdateOutcome) returns (notified: Option<Snippet>, refresh: bool)
      requires Valid() && inFlight.Some?
      modifies this
      ensures Valid() && inFlight == None
      ensures refresh == (outcome.UpdateFailed? && Serious(outcome.status))
      ensures refreshing == refresh && isUpdating == refresh
      ensures var f := old(inFlight).value;
        && (outcome.Updated? ==>
              && localSnippet == outcome.data.GetOr(f.optimistic)
              && notified == Some(localSnippet)
              && error == old(error)
              && editedContent == (if f.patch.content.Some? && f.patch.content.value != ""
                                   then f.patch.content.value else old(editedContent)))
        && (outcome.UpdateFailed? ==>
              && localSnippet == f.fallback
              && notified == None
              && error == Some(outcome.message)
              && editedContent == old(editedContent))
      ensures snippet == old(snippet) && isDeleted == old(isDeleted) && isExpanded == old(isExpanded)
    {
      var f := inFlight.value;
      match outcome {
        case Updated(data) =>
          var updatedSnippet := data.GetOr(f.optimistic);
          localSnippet := updatedSnippet;
          if f.patch.content.Some? && f.patch.content.value != "" {
            editedContent := f.patch.content.value;
          }
          notified := Some(updatedSnippet);
          refresh := false;
        case UpdateFailed(status, message) =>
          localSnippet := f.fallback;
          error := Some(message);
          notified := None;
          refresh := Serious(status);
      }
      inFlight := None;
      refreshing := refresh;
      isUpdating := refresh;
    }

    /** The awaited `refreshList()` of a failed update settles, either way,
        and the `finally` ends the update. */
    method ResolveRefresh()
      requires Valid() && refreshing
      modifies this
      ensures Valid() && !refreshing && !isUpdating
      ensures snippet == old(snippet) && localSnippet == old(localSnippet) && inFlight == old(inFlight)
      ensures error == old(error) && isDeleted == old(isDeleted) && isExpanded == old(isExpanded)
      ensures editedContent == old(editedContent)
    {
      refreshing := false;
      isUpdating := false;
    }

    /** The request half of `deleteSnippet`: nothing while an update is out;
        otherwise the request goes out and the row stays as it is. */
    method BeginDelete() returns (path: Option<string>)
      ensures isUpdating ==> path == None
      ensures !isUpdating ==> path == Some("/snippets/" + snippet.id)
    {
      if isUpdating {
        return None;
      }
      return Some("/snippets/" + snippet.id);
    }

    /** The answer half of `deleteSnippet`: the row is marked deleted only
        once the server confirms; a failure records the error and asks for a
        refresh only for a status of 500 or more. */
    method ResolveDelete(outcome: DeleteOutcome) returns (refresh: bool)
      requires Valid()
      modifies this
      ensures Valid()
      ensures outcome.Deleted? ==> isDeleted && !refresh && error == old(error)
      ensures outcome.DeleteFailed? ==>
        isDeleted == old(isDeleted) && error == Some(outcome.message) && refresh == Serious(outcome.status)
      ensures snippet == old(snippet) && localSnippet == old(localSnippet) && isUpdating == old(isUpdating)
      ensures inFlight == old(inFlight) && editedContent == old(editedContent) && isExpanded == old(isExpanded)
      ensures refreshing == old(refreshing)
    {
      match outcome {
        case Deleted =>
          isDeleted := true;
          refresh := false;
        case DeleteFailed(status, message) =>
          error := Some(message);
          refresh := Serious(status);
      }
    }

    /** `updateTitle`: an update only when the title differs from the local
        one. */
    method UpdateTitle(newTitle: string) returns (req: Option<UpdateRequest>)
      requires Valid()
      modifies this
      ensures Valid()
      ensures newTitle == old(localSnippet.title) ==> req == None && unchanged(this)
      ensures newTitle != old(localSnippet.title) && !old(isUpdating) ==>
        && UpdateStarted(NoChanges.(title := Some(newTitle)), req)
        && localSnippet == old(localSnippet).(title := newTitle)
      ensures old(isUpdating) ==> req == None && unchanged(this)
    {
      if newTitle != localSnippet.title {
        req := BeginUpdate(NoChanges.(title := Some(newTitle)));
      } else {
        req := None;
      }
    }

    /** `saveContent`: an update only when the editor differs from the local
        content. */
    method SaveContent() returns (req: Option<UpdateRequest>)
      requires Valid()
      modifies this
      ensures Valid()
      ensures old(editedContent) == old(localSnippet.content) ==> req == None && unchanged(this)
      ensures old(editedContent) != old(localSnippet.content) && !old(isUpdating) ==>
        && UpdateStarted(NoChanges.(content := Some(old(editedContent))), req)
        && localSnippet == old(localSnippet).(content := old(editedContent))
      ensures old(isUpdating) ==> req == None && unchanged(this)
    {
      if editedContent != localSnippet.content {
        req := BeginUpdate(NoChanges.(content := Some(editedContent)));
      } else {
        req := None;
      }
    }

    /** `toggleFavorite`: an update that flips the local favourite flag. */
    method ToggleFavorite() returns (req: Option<UpdateRequest>)
      requires Valid()
      modifies this
      ensures Valid()
      ensures !old(isUpdating) ==>
        && UpdateStarted(NoChanges.(isFavorite := Some(!old(localSnippet.isFavorite))), req)
        && localSnippet == old(localSnippet).(isFavorite := !old(localSnippet.isFavorite))
      ensures old(isUpdating) ==> req == None && unchanged(this)
    {
      req := BeginUpdate(NoChanges.(isFavorite := Some(!localSnippet.isFavorite)));
    }

    /** The editor's `onChange`. */
    method EditContent(value: string)
      requires Valid()
      modifies this
      ensures Valid() && editedContent == value
      ensures snippet == old(snippet) && localSnippet == old(localSnippet) && isUpdating == old(isUpdating)
      ensures inFlight == old(inFlight) && error == old(error) && isDeleted == old(isDeleted)
      ensures isExpanded == old(isExpanded) && refreshing == old(refreshing)
    {
      editedContent := value;
    }

    /** The error view's "Dismiss". */
    method DismissError()
      requires Valid()
      modifies this
      ensures Valid() && error == None
      ensures snippet == old(snippet) && localSnippet == old(localSnippet) && isUpdating == old(isUpdating)
      ensures inFlight == old(inFlight) && editedContent == old(editedContent) && isDeleted == old(isDeleted)
      ensures isExpanded == old(isExpanded) && refreshing == old(refreshing)
    {
      error := None;
    }

    /** A new `snippet` prop from the parent: the local copy and the editor,
        initialised once by `useState`, keep their values. */
    method ReceiveProps(s: Snippet)
      requires Valid()
      modifies this
      ensures Valid() && snippet == s
      ensures localSnippet == old(localSnippet) && editedContent == old(editedContent)
      ensures isUpdating == old(isUpdating) && inFlight == old(inFlight) && error == old(error)
      ensures isDeleted == old(isDeleted) && isExpanded == old(isExpanded) && refreshing == old(refreshing)
    {
      snippet := s;
    }
  }
}
