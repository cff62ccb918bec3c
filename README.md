# Bookmark service: a Dafny model

This project models the bookmark service of a small NestJS backend. Each
authenticated user keeps a private collection of bookmarks. A bookmark has
a title, a link and an optional description. The service has five
operations: list my bookmarks, get one by id, create, edit and delete.
Edit and delete share an ownership gate. They look the row up by id alone
and throw `Forbidden` ("Access to resources denied") when it is missing or
belongs to another user.

The Prisma `bookmark` table is modelled as a `map<int, Bookmark>` from
primary key to row, plus the autoincrement counter `nextId`. Ids start at 1
and are never reused.

- `wrappers.dfy` (module `Wrappers`): `Option` (null, or an absent field),
  `Result` (a value or a thrown error) and `Outcome` (nothing, or a thrown
  error).
- `bookmarks.dfy` (module `Bookmarks`): the row and the two DTOs, the error,
  the two read queries as functions over the table, the ownership gate
  `Authorize`, the partial-update rule `ApplyEdit`, and lemmas that follow a
  user's list through each kind of table change.
- `service.dfy` (module `Service`): class `BookmarkService`, holding the
  table and the counter. Its methods `CreateBookmark`, `EditBookmarkById`
  and `DeleteBookmarkById` change the table in place. Each method states
  its whole new state, the error case, and that rows of other users and
  other users' lists do not change. The client method `EndToEndScenario`
  follows the bookmark scenario of the end-to-end suite through these
  contracts, with a second user added to show that the gate refuses them.
  It is a usage example, drawn from the bookmark tests
  (test/app.e2e-spec.ts:157-256). It has no contract of its own, so it has
  no row in the table below.

Modelling decisions:

- `findMany` returns an array. The model returns a `seq` in ascending id
  order. Without `orderBy`, `findMany` promises no order, so this order is
  purely the model's choice.
- The create DTO has no `userId` field. The spread
  `{ userId, ...createBookmarkDto }` puts the DTO after `userId`, so a
  `userId` in the body would win. The caller owns the new row only because
  the whitelisting validation pipe (test/app.e2e-spec.ts:19-21) strips
  unknown fields. The model follows the code.
- The edit DTO is a record of `Option` fields. `None` is an absent field,
  which Prisma's `update` leaves untouched. The DTO has no `id` or `userId`
  field, again because the whitelisting pipe strips them from a PATCH
  body. That is why `ApplyEdit` can promise that the id and the owner never
  change.
- Each method is one atomic step over the table.

## Model

| member | source | states |
|---|---|---|
| `Bookmarks.GetBookmarks` | src/bookmark/bookmark.service.ts:9-15 | the result holds exactly the rows whose owner is `u` (both directions), each once, in strictly ascending id order; it is empty exactly when `u` owns no row, never an error |
| `Bookmarks.ListRangeExact` | src/bookmark/bookmark.service.ts:10-14 | by induction over the id range: the `findMany` filter keeps exactly the rows of `u` in the range, in ascending id order |
| `Bookmarks.GetBookmarkById` | src/bookmark/bookmark.service.ts:17-24 | returns the row exactly when it exists and its owner is `u`, otherwise `None`; a row of another user gives the same `None` as a missing one, and nothing is thrown |
| `Bookmarks.LookupAgreesWithList` | src/bookmark/bookmark.service.ts:9-24 | `getBookmarkbyId(u, id)` finds a row exactly when `u`'s list holds one with that id, and it finds that same row |
| `Bookmarks.Authorize` | src/bookmark/bookmark.service.ts:46-54 | the gate passes exactly when the id is in the table and its owner is the caller, and then yields the stored row; otherwise it fails with `Forbidden("Access to resources denied")` |
| `Bookmarks.GateAgreesWithLookup` | src/bookmark/bookmark.service.ts:17-54 | the gate of edit/delete and the lookup of get-by-id admit exactly the same rows and see the same record; they differ only in how they report a refusal |
| `Bookmarks.ApplyEdit` | src/bookmark/bookmark.service.ts:56-63 | each field present in the edit DTO overwrites the stored one, each absent field keeps its value, and the id and owner never change |
| `Bookmarks.EmptyEditIsIdentity` | src/bookmark/bookmark.service.ts:60-62 | an edit with no fields leaves the record as it was |
| `Bookmarks.EditIsIdempotent` | src/bookmark/bookmark.service.ts:60-62 | repeating an edit changes nothing more |
| `Bookmarks.EditsCompose` | src/bookmark/bookmark.service.ts:60-62 | two edits in a row equal one edit in which the later DTO's present fields win |
| `Bookmarks.ListAfterCreate` | src/bookmark/bookmark.service.ts:30-35 | storing a row under the next id keeps the table well formed, appends the row to its owner's list, and leaves every other user's list unchanged |
| `Bookmarks.ListAfterEdit` | src/bookmark/bookmark.service.ts:56-63 | rewriting a row under the same id and owner puts the new record in the old one's place in the owner's list (in the model's id order), and leaves every other user's list unchanged |
| `Bookmarks.ListAfterDelete` | src/bookmark/bookmark.service.ts:78-82 | removing a row takes exactly that record out of its owner's list, and leaves every other user's list unchanged |
| `Service.BookmarkService.CreateBookmark` | src/bookmark/bookmark.service.ts:26-38 | adds exactly one row, under the counter's current id, which it then advances (so an id is never reused, even after a delete) and which is larger than every existing one; the row is owned by the caller and carries the DTO's title, link and description; no other row changes; the caller's list grows by that row at its end and other users' lists are unchanged |
| `Service.BookmarkService.EditBookmarkById` | src/bookmark/bookmark.service.ts:40-64 | fails with `Forbidden` exactly when the id is missing or owned by another user, leaving the table unchanged; otherwise stores and returns the partially updated record under the same id and owner, replaces it in place in the caller's list, and changes no other row |
| `Service.BookmarkService.DeleteBookmarkById` | src/bookmark/bookmark.service.ts:66-83 | fails with `Forbidden` exactly when the id is missing or owned by another user, leaving the table unchanged; otherwise removes exactly that key, takes the record out of the caller's list, and changes no other row; a second delete of the same id is refused |

## Left out

- The controller (src/bookmark/bookmark.controller.ts): routing, the JWT guard, `ParseIntPipe` and HTTP status codes. It passes its arguments to the service unchanged.
- Authentication and the user module. The caller's `userId` is an input.
- Request validation: DTO decorators and the 400 response for a missing title or link. The create DTO type always has a title and a link.
- The `async`/Promise plumbing, and the `createdAt`/`updatedAt` timestamps, which the persistence layer sets.
- Persistence errors: constraint violations and lost connections. Every store call in the model succeeds.
- The race between the ownership check and the update or delete. Without concurrency each method is atomic, so the update or delete can never miss its row.
- The 32-bit range of the database's integer ids. Ids are unbounded `int`s, and the counter never overflows.
- Setting `description` to null through an edit. An edit DTO field is either absent or a string.
- `Bookmarks.GetBookmarks`: the source does not promise any order for `findMany`. The model fixes ascending id order, and its ordering clause is about that choice.
