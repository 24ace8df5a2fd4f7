/** The server's snippet record (server/internal/models/snippet.go). Its
    methods change the record in place, so it is a class; the clock
    (`time.Now()`) and the generated UUID are parameters. */
module Models {
  import opened SeqUtil

  class Snippet {
    /** Never reassigned once the record exists: the store files a snippet
        under this key. */
    const id: string
    var title: string
    var description: string
    var content: string
    var language: string
    var tags: seq<string>
    var createdAt: int
    var updatedAt: int
    var isFavorite: bool

    /** `NewSnippet`: no description, no tags, not a favourite, both
        timestamps equal to the creation time. */
    constructor NewSnippet(id: string, title: string, content: string, language: string, now: int)
      ensures this.id == id && this.title == title && this.content == content && this.language == language
      ensures description == "" && tags == [] && !isFavorite
      ensures createdAt == now && updatedAt == now
    {
      this.id := id;
      this.title := title;
      this.description := "";
      this.content := content;
      this.language := language;
      this.tags := [];
      this.createdAt := now;
      this.updatedAt := now;
      this.isFavorite := false;
    }

    /** `AddTag`: a tag already present changes nothing, not even `updatedAt`;
        a new tag goes at the end and stamps `updatedAt`. Either way the tag
        list stays free of duplicates if it was. */
    method AddTag(tag: string, now: int)
      modifies this
      ensures tag in old(tags) ==> tags == old(tags) && updatedAt == old(updatedAt)
      ensures tag !in old(tags) ==> tags == old(tags) + [tag] && updatedAt == now
      ensures tag in tags
      ensures NoDuplicates(old(tags)) ==> NoDuplicates(tags)
      ensures title == old(title) && description == old(description) && content == old(content)
      ensures language == old(language) && createdAt == old(createdAt) && isFavorite == old(isFavorite)
    {
      if tag in tags {
        return;
      }
      tags := tags + [tag];
      updatedAt := now;
    }

    /** `RemoveTag`: deletes the first occurrence only, keeping the order of
        the rest, and stamps `updatedAt` only when something was removed. */
    method RemoveTag(tag: string, now: int)
      modifies this
      ensures tags == RemoveFirst(old(tags), tag)
      ensures tag in old(tags) ==> |tags| == |old(tags)| - 1 && updatedAt == now
      ensures tag !in old(tags) ==> tags == old(tags) && updatedAt == old(updatedAt)
      ensures NoDuplicates(old(tags)) ==> NoDuplicates(tags) && tag !in tags
      ensures title == old(title) && description == old(description) && content == old(content)
      ensures language == old(language) && createdAt == old(createdAt) && isFavorite == old(isFavorite)
    {
      if NoDuplicates(tags) {
        RemoveFirstNoDuplicates(tags, tag);
      }
      var i := 0;
      while i < |tags|
        invariant 0 <= i <= |tags|
        invariant tag !in tags[..i]
        invariant tags == old(tags) && updatedAt == old(updatedAt)
      {
        if tags[i] == tag {
          RemoveFirstAt(tags, tag);
          assert FirstIndex(tags, tag) == i by {
            var j := FirstIndex(tags, tag);
            assert tags[..j + 1][j] == tag;
            assert tags[..i + 1][i] == tag;
          }
          tags := tags[..i] + tags[i + 1..];
          updatedAt := now;
          return;
        }
        assert tags[..i + 1] == tags[..i] + [tags[i]];
        i := i + 1;
      }
      assert tags[..i] == tags;
      RemoveFirstAbsent(tags, tag);
    }

    /** `ToggleFavorite`: flips the flag (so two calls restore it) and stamps
        `updatedAt`. */
    method ToggleFavorite(now: int)
      modifies this
      ensures isFavorite == !old(isFavorite) && updatedAt == now
      ensures tags == old(tags) && title == old(title) && description == old(description)
      ensures content == old(content) && language == old(language) && createdAt == old(createdAt)
    {
      isFavorite := !isFavorite;
      updatedAt := now;
    }
  }
}
