/** The state-changing author handlers, as methods on the store they update:
    the author collection, the book collection (updated in place) and the
    identifier source. Each is proved to have the effect `Tables` specifies. */
module Controller {
  import opened Models
  import opened Http
  import opened Tables

  class Library {
    var authors: seq<Author>
    var books: array<Book>
    var nextId: AuthorId

    /** The store as a value. */
    function State(): Store
      reads this, books
    {
      Store(authors, books[..], nextId)
    }

    ghost predicate Valid()
      reads this, books
    {
      Tables.Valid(State())
    }

    constructor (authors: seq<Author>, books: array<Book>, nextId: AuthorId)
      requires Tables.Valid(Store(authors, books[..], nextId))
      ensures Valid() && this.books == books
      ensures State() == Store(authors, old(books[..]), nextId)
    {
      this.authors := authors;
      this.books := books;
      this.nextId := nextId;
    }

    /** `Author.create` / `createAuthor`: stores a new author under the next
        identifier. */
    method CreateAuthor(name: string, bio: string, dateOfBirth: Option<int>) returns (status: Status, created: Author)
      requires Valid()
      modifies this
      ensures Valid() && books == old(books)
      ensures (status, State(), created) == Tables.CreateAuthor(old(State()), name, bio, dateOfBirth)
    {
      created := Author(nextId, name, bio, dateOfBirth);
      authors := authors + [created];
      nextId := nextId + 1;
      status := Created;
    }

    /** `Book.updateMany`: every book of author `from` is handed to `to`, in
        place. */
    method ReassignBooks(from: AuthorId, to: AuthorId)
      modifies books
      ensures books[..] == Reassigned(old(books[..]), from, to)
    {
      var i := 0;
      while i < books.Length
        invariant 0 <= i <= books.Length
        invariant forall k :: 0 <= k < i ==> books[k] == Retarget(old(books[k]), from, to)
        invariant forall k :: i <= k < books.Length ==> books[k] == old(books[k])
      {
        if books[i].author == from {
          books[i] := books[i].(author := to);
        }
        i := i + 1;
      }
    }

    /** `deleteAuthor`. */
    method DeleteAuthor(id: AuthorId) returns (status: Status)
      requires Valid()
      modifies this, books
      ensures Valid() && books == old(books)
      ensures (status, State()) == Delete(old(State()), id)
    {
      if FindById(authors, id).None? {
        return NotFound;
      }
      ghost var before := State();
      var sentinelId: AuthorId;
      var found := FindFirstByName(authors, UnknownName);
      if found.Some? {
        sentinelId := authors[found.value].id;
      } else {
        var created;
        status, created := CreateAuthor(UnknownName, UnknownBio, None);
        sentinelId := created.id;
      }
      assert (State(), sentinelId) == EnsureSentinel(before);
      ReassignBooks(id, sentinelId);
      authors := Without(authors, id);
      status := Ok;
      DeleteValid(before, id);
    }

    /** `updateAuthor`: patches the author `id` in place. */
    method UpdateAuthor(id: AuthorId, patch: AuthorPatch) returns (status: Status, updated: Option<Author>)
      requires Valid()
      modifies this
      ensures Valid() && books == old(books)
      ensures (status, updated, State()) == Update(old(State()), id, patch)
    {
      var found := FindById(authors, id);
      if found.None? {
        status, updated := NotFound, None;
        return;
      }
      ghost var before := State();
      var a := ApplyPatch(authors[found.value], patch);
      authors := authors[found.value := a];
      status, updated := Ok, Some(a);
      UpdateExisting(before, id, patch);
    }
  }
}
