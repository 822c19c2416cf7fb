/** The author and book collections as values, and what each author handler
    does to them: the specification the `Controller` methods are proved
    against. */
module Tables {
  import opened Models
  import opened Http

  /** The author collection in natural order, the book collection, and the
      identifier the store hands to the next document it creates. */
  datatype Store = Store(authors: seq<Author>, books: seq<Book>, nextId: AuthorId)

  function Ids(authors: seq<Author>): set<AuthorId>
  {
    set a | a in authors :: a.id
  }

  ghost predicate UniqueIds(authors: seq<Author>)
  {
    forall i, j :: 0 <= i < j < |authors| ==> authors[i].id != authors[j].id
  }

  /** Identifiers are unique and all below the next one to be handed out. */
  ghost predicate Valid(s: Store)
  {
    && UniqueIds(s.authors)
    && forall a :: a in s.authors ==> a.id < s.nextId
  }

  /** Every book refers to an author of the collection. */
  ghost predicate NoDangling(s: Store)
  {
    forall b :: b in s.books ==> b.author in Ids(s.authors)
  }

  /** `findById`: the position of the author with identifier `id`. */
  function FindById(authors: seq<Author>, id: AuthorId): (r: Option<nat>)
    ensures r.None? <==> id !in Ids(authors)
    ensures r.Some? ==> r.value < |authors| && authors[r.value].id == id
  {
    if authors == [] then None
    else if authors[0].id == id then Some(0)
    else
      assert Ids(authors) == {authors[0].id} + Ids(authors[1..]) by {
        assert authors == [authors[0]] + authors[1..];
      }
      match FindById(authors[1..], id)
      case None => None
      case Some(i) => Some(i + 1)
  }

  /** `findOne({name})`: the position of the first author, in natural order,
      with the given name. */
  function FindFirstByName(authors: seq<Author>, name: string): (r: Option<nat>)
    ensures r.None? <==> forall a :: a in authors ==> a.name != name
    ensures r.Some? ==> r.value < |authors| && authors[r.value].name == name
    ensures r.Some? ==> forall k :: 0 <= k < r.value ==> authors[k].name != name
  {
    if authors == [] then None
    else if authors[0].name == name then Some(0)
    else
      assert authors == [authors[0]] + authors[1..];
      match FindFirstByName(authors[1..], name)
      case None => None
      case Some(i) => Some(i + 1)
  }

  /** `findByIdAndDelete`: the collection without the author `id`. */
  function Without(authors: seq<Author>, id: AuthorId): (r: seq<Author>)
    ensures forall a :: a in r <==> a in authors && a.id != id
    ensures UniqueIds(authors) ==> UniqueIds(r)
  {
    if authors == [] then []
    else
      var rest := Without(authors[1..], id);
      assert authors == [authors[0]] + authors[1..];
      if authors[0].id == id then rest
      else
        assert UniqueIds(authors) ==> UniqueIds([authors[0]] + rest) by {
          if UniqueIds(authors) {
            forall j | 0 < j < |[authors[0]] + rest|
              ensures ([authors[0]] + rest)[0].id != ([authors[0]] + rest)[j].id
            {
              assert rest[j - 1] in authors[1..];
            }
          }
        }
        [authors[0]] + rest
  }

  /** `create`: a new author with the next identifier, appended to the
      collection. */
  function AddAuthor(s: Store, name: string, bio: string, dateOfBirth: Option<int>): (r: (Store, Author))
    ensures Valid(s) ==> Valid(r.0) && r.1.id !in Ids(s.authors)
    ensures r.0.authors == s.authors + [r.1] && r.0.books == s.books && r.0.nextId > s.nextId
    ensures r.1.name == name && r.1.bio == bio && r.1.dateOfBirth == dateOfBirth
  {
    var a := Author(s.nextId, name, bio, dateOfBirth);
    (Store(s.authors + [a], s.books, s.nextId + 1), a)
  }

  /** `createAuthor`: the author is stored and the answer is 201. */
  function CreateAuthor(s: Store, name: string, bio: string, dateOfBirth: Option<int>): (r: (Status, Store, Author))
    ensures r.0 == Created
    ensures r.1.authors == s.authors + [r.2] && r.1.books == s.books
    ensures r.2.name == name && r.2.bio == bio && r.2.dateOfBirth == dateOfBirth
    ensures Valid(s) ==> Valid(r.1) && r.2.id !in Ids(s.authors)
  {
    var (t, a) := AddAuthor(s, name, bio, dateOfBirth);
    (Created, t, a)
  }

  /** Lines 137-144 of the controller: the store after the placeholder author
      has been looked up, or created when there was none, and its identifier. */
  function EnsureSentinel(s: Store): (r: (Store, AuthorId))
    ensures r.0.books == s.books
    ensures exists a :: a in r.0.authors && a.id == r.1 && a.name == UnknownName
    ensures var f := FindFirstByName(s.authors, UnknownName);
            f.Some? ==> r.0 == s && r.1 == s.authors[f.value].id
    ensures FindFirstByName(s.authors, UnknownName).None? ==>
              && r.0.authors == s.authors + [Author(s.nextId, UnknownName, UnknownBio, None)]
              && r.0.nextId == s.nextId + 1
              && r.1 == s.nextId
    ensures var f := FindFirstByName(r.0.authors, UnknownName);
            f.Some? && r.0.authors[f.value].id == r.1
  {
    match FindFirstByName(s.authors, UnknownName)
    case Some(i) =>
      assert s.authors[i] in s.authors;
      (s, s.authors[i].id)
    case None =>
      var (t, a) := AddAuthor(s, UnknownName, UnknownBio, None);
      assert a in t.authors && t.authors[|s.authors|] == a;
      assert forall k :: 0 <= k < |s.authors| ==> t.authors[k] == s.authors[k] && s.authors[k] in s.authors;
      (t, a.id)
  }

  /** The identifier the books of a deleted author are handed to. */
  function SentinelId(s: Store): AuthorId
  {
    EnsureSentinel(s).1
  }

  function Retarget(b: Book, from: AuthorId, to: AuthorId): Book
  {
    if b.author == from then b.(author := to) else b
  }

  /** `updateMany({author: from}, {$set: {author: to}})` on the books. */
  function Reassigned(books: seq<Book>, from: AuthorId, to: AuthorId): (r: seq<Book>)
    ensures |r| == |books|
    ensures forall k :: 0 <= k < |books| ==>
              && r[k].title == books[k].title && r[k].category == books[k].category
              && r[k].author == (if books[k].author == from then to else books[k].author)
  {
    seq(|books|, k requires 0 <= k < |books| => Retarget(books[k], from, to))
  }

  /** `deleteAuthor`: 404 for an unknown id; otherwise the placeholder author
      is found or created, the books of `id` are handed to it and `id` is
      removed. */
  function Delete(s: Store, id: AuthorId): (Status, Store)
  {
    if FindById(s.authors, id).None? then (NotFound, s)
    else
      var (t, sid) := EnsureSentinel(s);
      (Ok, Store(Without(t.authors, id), Reassigned(t.books, id, sid), t.nextId))
  }

  /** An unknown id is answered with 404 and changes neither collection. */
  lemma DeleteMissing(s: Store, id: AuthorId)
    requires id !in Ids(s.authors)
    ensures Delete(s, id) == (NotFound, s)
  {
  }

  /** A delete keeps the identifiers unique. */
  lemma DeleteValid(s: Store, id: AuthorId)
    requires Valid(s)
    ensures Valid(Delete(s, id).1)
  {
  }

  /** After deleting an existing author other than the placeholder, the author
      is gone, the placeholder is present, and no book refers to the deleted
      author. */
  lemma DeleteRemovesAuthor(s: Store, id: AuthorId)
    requires Valid(s) && id in Ids(s.authors) && id != SentinelId(s)
    ensures var (status, t) := Delete(s, id);
            && status == Ok
            && id !in Ids(t.authors)
            && SentinelId(s) in Ids(t.authors)
            && forall b :: b in t.books ==> b.author != id
  {
    var (u, sid) := EnsureSentinel(s);
    var t := Delete(s, id).1;
    var w :| w in u.authors && w.id == sid;
    assert w in t.authors;
    forall b | b in t.books ensures b.author != id {
      var k :| 0 <= k < |t.books| && t.books[k] == b;
    }
  }

  /** The books of the deleted author now refer to the placeholder; every
      other book is unchanged. */
  lemma DeleteReassignsBooks(s: Store, id: AuthorId)
    requires id in Ids(s.authors)
    ensures var t := Delete(s, id).1;
            && |t.books| == |s.books|
            && (forall k :: 0 <= k < |s.books| && s.books[k].author == id ==>
                  t.books[k] == s.books[k].(author := SentinelId(s)))
            && (forall k :: 0 <= k < |s.books| && s.books[k].author != id ==>
                  t.books[k] == s.books[k])
  {
  }

  /** Every other author is kept, and the only author that can appear is a new
      placeholder, and only when there was none. */
  lemma DeleteKeepsOthers(s: Store, id: AuthorId)
    requires Valid(s) && id in Ids(s.authors)
    ensures var t := Delete(s, id).1;
            && (forall a :: a in s.authors && a.id != id ==> a in t.authors)
            && (forall a :: a in t.authors && a !in s.authors ==>
                  && FindFirstByName(s.authors, UnknownName).None?
                  && a == Author(s.nextId, UnknownName, UnknownBio, None))
  {
  }

  /** Books that referred to existing authors still do after deleting an
      author other than the placeholder. */
  lemma DeletePreservesNoDangling(s: Store, id: AuthorId)
    requires Valid(s) && NoDangling(s) && id in Ids(s.authors) && id != SentinelId(s)
    ensures NoDangling(Delete(s, id).1)
  {
    var (u, sid) := EnsureSentinel(s);
    var t := Delete(s, id).1;
    DeleteRemovesAuthor(s, id);
    forall b | b in t.books ensures b.author in Ids(t.authors) {
      var k :| 0 <= k < |t.books| && t.books[k] == b;
      if s.books[k].author != id {
        assert s.books[k] in s.books;
        var a :| a in s.authors && a.id == s.books[k].author;
        assert a in t.authors;
      }
    }
  }

  /** Deleting the placeholder itself hands its books to itself and then
      removes it, so each of those books refers to an author that no longer
      exists. */
  lemma DeleteSentinelDangles(s: Store, id: AuthorId, k: nat)
    requires Valid(s) && id in Ids(s.authors) && id == SentinelId(s)
    requires k < |s.books| && s.books[k].author == id
    ensures var t := Delete(s, id).1;
            k < |t.books| && t.books[k].author !in Ids(t.authors)
  {
  }

  /** The first author named `name` survives removing a different author. */
  lemma {:induction false} FirstByNameWithout(authors: seq<Author>, name: string, id: AuthorId)
    requires FindFirstByName(authors, name).Some?
    requires authors[FindFirstByName(authors, name).value].id != id
    ensures var r := FindFirstByName(Without(authors, id), name);
            r.Some? && Without(authors, id)[r.value] == authors[FindFirstByName(authors, name).value]
  {
    if authors[0].name != name {
      assert authors == [authors[0]] + authors[1..];
      FirstByNameWithout(authors[1..], name, id);
      if authors[0].id != id {
        assert Without(authors, id) == [authors[0]] + Without(authors[1..], id);
      }
    }
  }

  /** Once an author other than the placeholder has been deleted, a later
      delete finds the same placeholder and creates none. */
  lemma DeleteSentinelOnce(s: Store, id: AuthorId)
    requires Valid(s) && id in Ids(s.authors) && id != SentinelId(s)
    ensures var t := Delete(s, id).1;
            EnsureSentinel(t) == (t, SentinelId(s))
  {
    var (u, sid) := EnsureSentinel(s);
    var t := Delete(s, id).1;
    var i := FindFirstByName(u.authors, UnknownName);
    assert i.Some?;
    assert u.authors[i.value].id == sid;
    FirstByNameWithout(u.authors, UnknownName, id);
  }

  /** Deleting the placeholder when it is the only author named "Không rõ"
      leaves none, so the next delete creates a new placeholder. */
  lemma DeleteSentinelRecreated(s: Store, id: AuthorId)
    requires Valid(s) && id in Ids(s.authors) && id == SentinelId(s)
    requires forall a :: a in s.authors && a.name == UnknownName ==> a.id == id
    ensures var t := Delete(s, id).1;
            && FindFirstByName(t.authors, UnknownName).None?
            && EnsureSentinel(t).0.authors == t.authors + [Author(t.nextId, UnknownName, UnknownBio, None)]
  {
    var w :| w in s.authors && w.id == id;
    assert w.id < s.nextId;
  }

  /** A partial document: the fields the request body sets. */
  datatype AuthorPatch = AuthorPatch(name: Option<string>, bio: Option<string>, dateOfBirth: Option<int>)

  function ApplyPatch(a: Author, p: AuthorPatch): (r: Author)
    ensures r.id == a.id
    ensures r.name == (if p.name.Some? then p.name.value else a.name)
    ensures r.bio == (if p.bio.Some? then p.bio.value else a.bio)
    ensures r.dateOfBirth == (if p.dateOfBirth.Some? then p.dateOfBirth else a.dateOfBirth)
  {
    Author(a.id,
      match p.name case Some(n) => n case None => a.name,
      match p.bio case Some(b) => b case None => a.bio,
      match p.dateOfBirth case Some(d) => Some(d) case None => a.dateOfBirth)
  }

  /** `updateAuthor`: 404 for an unknown id; otherwise the patched author,
      which is also what the answer carries. */
  function Update(s: Store, id: AuthorId, p: AuthorPatch): (Status, Option<Author>, Store)
  {
    match FindById(s.authors, id)
    case None => (NotFound, None, s)
    case Some(i) =>
      var a := ApplyPatch(s.authors[i], p);
      (Ok, Some(a), s.(authors := s.authors[i := a]))
  }

  /** An update of an unknown id is answered with 404 and changes nothing. */
  lemma UpdateMissing(s: Store, id: AuthorId, p: AuthorPatch)
    requires id !in Ids(s.authors)
    ensures Update(s, id, p) == (NotFound, None, s)
  {
  }

  /** An update of a known id patches that author in place and leaves every
      other author, the books and the identifiers as they were. */
  lemma UpdateExisting(s: Store, id: AuthorId, p: AuthorPatch)
    requires Valid(s) && id in Ids(s.authors)
    ensures var (status, updated, t) := Update(s, id, p);
            && status == Ok && updated.Some?
            && updated.value.id == id
            && updated.value == ApplyPatch(s.authors[FindById(s.authors, id).value], p)
            && t.authors[FindById(s.authors, id).value] == updated.value
            && updated.value in t.authors
            && Valid(t) && Ids(t.authors) == Ids(s.authors) && t.books == s.books
            && |t.authors| == |s.authors|
            && forall k :: 0 <= k < |s.authors| && s.authors[k].id != id ==> t.authors[k] == s.authors[k]
  {
    var i := FindById(s.authors, id).value;
    var t := Update(s, id, p).2;
    assert forall k :: 0 <= k < |s.authors| ==> t.authors[k].id == s.authors[k].id;
    assert Ids(t.authors) == Ids(s.authors) by {
      forall x | x in Ids(s.authors) ensures x in Ids(t.authors) {
        var a :| a in s.authors && a.id == x;
        var k :| 0 <= k < |s.authors| && s.authors[k] == a;
        assert t.authors[k] in t.authors;
      }
    }
  }

  /** `getAll`: 404 when the collection is empty, otherwise every author. */
  function GetAll(s: Store): (r: (Status, seq<Author>))
    ensures r.0 == NotFound <==> s.authors == []
    ensures r.0 != NotFound ==> r.0 == Ok && r.1 == s.authors
    ensures r.0 == NotFound ==> r.1 == []
  {
    if |s.authors| == 0 then (NotFound, []) else (Ok, s.authors)
  }

  /** `getAuthorById`: 404 for an unknown id, otherwise that author. */
  function GetAuthorById(s: Store, id: AuthorId): (r: (Status, Option<Author>))
    ensures r.0 == NotFound <==> id !in Ids(s.authors)
    ensures r.0 != NotFound ==> r.0 == Ok && r.1.Some? && r.1.value in s.authors && r.1.value.id == id
    ensures r.0 == NotFound ==> r.1.None?
  {
    match FindById(s.authors, id)
    case None => (NotFound, None)
    case Some(i) => (Ok, Some(s.authors[i]))
  }
}
