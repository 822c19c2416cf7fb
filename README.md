# Author controller of a library REST backend, in Dafny

This project models the author controller of a small library/bookstore REST
backend (`src/controllers/authorController.js`). Each handler becomes one
sequential step over an in-memory store. The store holds the author
collection in natural order, the book collection, and the identifier the
store hands to the next document it creates. The handlers are:

- `getAllAuthors` is the paginated, filtered and sorted listing. The model
  covers the search filter (empty search matches all), the sort whitelist
  (`name`, `dateOfBirth`) with its direction (descending exactly when `order`
  is `"desc"`, the default), the offset `skip = (page - 1) * limit`, the page
  count `ceil(total / limit)` and the range check. The range check answers
  400 for any page outside `1..totalPages`, so every page is rejected when
  nothing matches. These are pure functions (module `Listing`). The store's
  sort is an insertion sort, proved sorted and a permutation (module
  `Ordering`).
- `getAll`, `getAuthorById` and `updateAuthor` answer 404 when the table is
  empty or the id is unknown. `updateAuthor` otherwise applies the body as a
  `$set` of the fields it carries.
- `createAuthor` appends an author under a fresh identifier and answers 201.
- `deleteAuthor` answers 404 for an unknown id. Otherwise it looks up the
  first author named "Không rõ" (the placeholder author), creating it when
  there is none. It hands every book of the deleted author to the
  placeholder, then removes the author.

Module `Tables` states each handler's effect as a function on a `Store` value
and proves its properties. Module `Controller` holds the class `Library`,
whose fields are the author sequence, the book array and the next identifier.
Its methods make the same changes step by step, the book reassignment being a
loop over the array in place. Each method is proved to end in the state the
`Tables` function gives.

The placeholder case is stated, not hidden. When the author being deleted is
itself the first author named "Không rõ", its books are handed to itself and
it is then removed. Those books are left referring to an author that no
longer exists (`DeleteSentinelDangles`). The "no dangling book" and
"placeholder created at most once" properties therefore assume the target is
not the placeholder.

Two points where a reader might expect otherwise:

- The search is not a substring match. The code passes the search string to
  the store as a case-insensitive regular expression, so the model keeps the
  match abstract.
- The placeholder is created at most once only until the placeholder itself
  is deleted. If no other author named "Không rõ" remains, the next delete
  creates a new one (`DeleteSentinelRecreated`).

## Model

| member | source | states |
|---|---|---|
| `Listing.WithDefaults` | src/controllers/authorController.js:7-13 | a query parameter that is given is kept; a missing one takes its default: empty search, page 1, limit 5, sort by `name`, order `desc` |
| `Listing.Skip` | src/controllers/authorController.js:14 | the offset of a page >= 1 is never negative; `SkipIsProduct` and `SkipSteps` state its value |
| `Listing.SkipIsProduct` | src/controllers/authorController.js:14 | the offset of a page is `(page - 1) * limit`, for every page number, negative ones included |
| `Listing.SkipSteps` | src/controllers/authorController.js:14 | page 1 starts at offset 0 and each page starts `limit` after the one before it |
| `Listing.SkipMono` | src/controllers/authorController.js:14 | a later page never starts at a smaller offset |
| `Listing.TotalPages` | src/controllers/authorController.js:33 | the page after the last one starts at or past the last document, the last page starts before it, and the count is 0 exactly when nothing matches |
| `Listing.TotalPagesIsCeil` | src/controllers/authorController.js:33 | the page count is `ceil(total / limit)`: `n * limit >= total`, `(n - 1) * limit < total`, and no smaller count covers the documents |
| `Listing.PageInRange` | src/controllers/authorController.js:33-37 | a page passes the range check `1 <= page <= totalPages` exactly when it is >= 1 and its offset lies inside the matching documents |
| `Listing.SortOf` | src/controllers/authorController.js:11-20 | a sort key is set exactly when `sortBy` is `name` or `dateOfBirth`; the direction is descending exactly when `order` is `"desc"` |
| `Listing.FilterOf` | src/controllers/authorController.js:22-26 | the filter is match-all exactly when the search string is empty; otherwise it matches names against the search string |
| `Listing.Select` | src/controllers/authorController.js:28-31 | the documents a find with the filter returns: each document is kept with its multiplicity exactly when the filter selects it, and match-all returns the whole collection |
| `Ordering.SortAuthors` | src/controllers/authorController.js:30 | the sorted find returns a permutation of its input that is ordered by the key in the direction (missing dates first when ascending) |
| `Ordering.Arrange` | src/controllers/authorController.js:17-20 | with sort options the result is sorted; with none it is the natural order; in both cases it is a permutation of the matches |
| `Listing.PageSlice` | src/controllers/authorController.js:30 | skip-then-limit returns `min(limit, remaining)` documents, the k-th being the document at offset `skip + k` |
| `Listing.Respond` | src/controllers/authorController.js:33-44 | out of range exactly when `page < 1` or the offset is at or past the end of the documents; otherwise the response carries `currentPage = page`, the document count, the page count and the skip-then-limit slice at the page's offset |
| `Listing.ListAuthors` | src/controllers/authorController.js:5-44 | the whole handler on the query with its defaults filled in (`WithDefaults`): 400 exactly for `page < 1` or a page starting past the matches; otherwise the slice at offset `(page - 1) * limit` of the sorted matching authors, with `totalDocuments` = number of matches, `totalPages` and `currentPage` |
| `Listing.NoMatchRejectsEveryPage` | src/controllers/authorController.js:37-40 | when no author matches, every page, page 1 included, is answered 400 |
| `Listing.DefaultListing` | src/controllers/authorController.js:7-13 | a request without parameters returns page 1 of five authors sorted by name descending, or 400 on an empty collection |
| `Listing.ListedPage` | src/controllers/authorController.js:14-44 | every page from 1 to `totalPages` is answered 200 with the slice of the sorted matches at that page's offset |
| `Listing.PagesCover` | src/controllers/authorController.js:14-44 | the slices of pages 1 to `totalPages`, concatenated, are exactly the sorted matches. With `ListedPage`, requesting those pages in turn returns every matching author once, in order. This rests on the model's fixed order for equal sort keys and for an unsorted find; the store guarantees no such order across separate requests |
| `Tables.GetAll` | src/controllers/authorController.js:52-61 | 404 with no records exactly when the author table is empty; otherwise 200 with every author in natural order |
| `Tables.GetAuthorById` | src/controllers/authorController.js:69-78 | 404 exactly when the id is not in the table; otherwise 200 with the author that has that id |
| `Tables.FindById` | src/controllers/authorController.js:130 | finds a position exactly when the id is in the table, and the author there has that id |
| `Tables.FindFirstByName` | src/controllers/authorController.js:137 | finds nothing exactly when no author has the name; otherwise the first author in natural order with that name |
| `Tables.Without` | src/controllers/authorController.js:151 | the remaining authors are exactly those with another id, and identifiers stay unique |
| `Tables.AddAuthor` | src/controllers/authorController.js:140-143 | the new author gets an identifier not yet in use, with the given fields, and is appended; books are untouched |
| `Tables.CreateAuthor` | src/controllers/authorController.js:86-95 | always 201; the stored author carries the given name, bio and date of birth and is appended; the books are unchanged; on a valid store its identifier is fresh and identifiers stay unique |
| `Tables.Reassigned` | src/controllers/authorController.js:146-149 | the book collection keeps its length; each book of author `from` now refers to `to`, every other book keeps its author, and titles and categories are kept |
| `Tables.EnsureSentinel` | src/controllers/authorController.js:137-144 | when an author named "Không rõ" exists, the store is unchanged and the placeholder is the first such author; otherwise an author with that name, the placeholder bio and no date of birth is appended under the next identifier. Either way the books are untouched and afterwards the placeholder is the first author named "Không rõ" |
| `Tables.DeleteMissing` | src/controllers/authorController.js:130-135 | deleting an unknown id answers 404 and leaves both tables unchanged |
| `Tables.DeleteValid` | src/controllers/authorController.js:127-155 | a delete keeps identifiers unique and below the next identifier |
| `Tables.DeleteRemovesAuthor` | src/controllers/authorController.js:137-151 | deleting an existing non-placeholder author answers 200, removes its id, keeps the placeholder, and leaves no book referring to it |
| `Tables.DeleteReassignsBooks` | src/controllers/authorController.js:146-149 | every book of the deleted author now refers to the placeholder, with its other fields kept; every other book is unchanged |
| `Tables.DeleteKeepsOthers` | src/controllers/authorController.js:137-151 | every other author is kept; the only author that can appear is a new placeholder, and only when no author named "Không rõ" existed |
| `Tables.DeletePreservesNoDangling` | src/controllers/authorController.js:146-151 | if every book referred to an existing author before deleting a non-placeholder author, every book still does |
| `Tables.DeleteSentinelDangles` | src/controllers/authorController.js:137-151 | deleting the placeholder itself leaves each of its books referring to an author that is no longer in the table |
| `Tables.FirstByNameWithout` | src/controllers/authorController.js:137-151 | removing an author other than the first one with a given name keeps that author first with the name |
| `Tables.DeleteSentinelOnce` | src/controllers/authorController.js:137-144 | after deleting a non-placeholder author, a later delete finds the same placeholder and creates none |
| `Tables.DeleteSentinelRecreated` | src/controllers/authorController.js:137-151 | deleting the placeholder when it is the only author named "Không rõ" leaves none, so the next delete appends a new placeholder |
| `Tables.Delete` | src/controllers/authorController.js:127-155 | the delete handler's effect on the store; it has no contract of its own and is characterised by `DeleteMissing`, `DeleteValid`, `DeleteRemovesAuthor`, `DeleteReassignsBooks`, `DeleteKeepsOthers`, `DeletePreservesNoDangling`, `DeleteSentinelDangles`, `DeleteSentinelOnce` and `DeleteSentinelRecreated` |
| `Tables.ApplyPatch` | src/controllers/authorController.js:105-112 | fields the body carries replace the stored ones, absent fields are kept, and the identifier never changes |
| `Tables.UpdateMissing` | src/controllers/authorController.js:114-117 | updating an unknown id answers 404, returns no author and changes nothing |
| `Tables.Update` | src/controllers/authorController.js:103-119 | the update handler's effect on the store; it has no contract of its own and is characterised by `UpdateMissing` and `UpdateExisting` |
| `Tables.UpdateExisting` | src/controllers/authorController.js:103-119 | updating a known id answers 200 with the stored author patched by the body (`ApplyPatch`), and stores it at that author's position under the same id; the other authors, the books and the set of ids are unchanged |
| `Controller.Library.CreateAuthor` | src/controllers/authorController.js:86-95 | appends the author under the next identifier, answers 201 and keeps the store valid |
| `Controller.Library.ReassignBooks` | src/controllers/authorController.js:146-149 | the in-place pass over the book array leaves exactly the reassigned book sequence |
| `Controller.Library.DeleteAuthor` | src/controllers/authorController.js:127-155 | the step-by-step delete ends in the status and state `Tables.Delete` gives, keeping the store valid |
| `Controller.Library.UpdateAuthor` | src/controllers/authorController.js:103-119 | the in-place update ends in the status, answer and state `Tables.Update` gives, keeping the store valid |

## Left out

- Name matching: `$regex` with the `i` option is a store regular-expression test. The model keeps it as the parameter `nameMatches(pattern, name)`, and does not model regular-expression syntax or case folding.
- Listing.Select: does not state that the matches keep the collection's natural order. The definition keeps it, but the contract speaks only of membership and multiplicity.
- Ordering.SortAuthors: the store does not fix the order of authors with equal keys. The model places them in a stable insertion-sort order, and its contract fixes only sortedness and the permutation. Names compare character by character by code point; dates compare as integers.
- Listing.ListAuthors: requires `limit > 0`. Query strings are not coerced to numbers, and `limit = 0` (a division giving `Infinity`) is not modelled. `Math.ceil` on a floating-point quotient is modelled as exact integer ceiling division.
- Negative offsets: for `page < 1` the source passes a negative `skip` to the store before its range check. If the store rejects that query, the handler answers 500 rather than 400. Store exceptions are not modelled, so the model answers 400 as the range check says.
- The concurrent count-and-find (`Promise.all`) is modelled as one sequential step. So is the non-atomic reassign-then-delete: a crash between the two steps is not modelled.
- The catch-all 500 answers are left out. They depend only on exceptions thrown by the store or the ORM: connectivity, validation (`runValidators`, required and unique fields), and malformed ids that fail to cast.
- `createAuthor`'s 400 branch is left out: `save()` either returns the stored document or throws. Identifiers are natural numbers handed out in order, not store object ids.
- Tables.ApplyPatch: a body can set only `name`, `bio` and `dateOfBirth`. It cannot unset a field, change the id, or add fields the schema does not declare.
- Response bodies, the Vietnamese message strings and the Express request/response plumbing are left out. Only the status and the data carried are modelled.
- `src/routes/user.js` (a route table for a user controller that is not part of this model) and `src/models/category.js` (a schema declaration) hold no logic and are not modelled.
