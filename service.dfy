/** The bookmark service over the `bookmark` table. The table is a map from
    id to row, plus the autoincrement counter that hands out ids. Create,
    edit and delete update the table in place. Each runs as one atomic step. */
module Service {
  import opened Wrappers
  import opened Bookmarks

  class BookmarkService {
    /** The rows of the `bookmark` table, by primary key. */
    var bookmarks: map<int, Bookmark>
    /** The id the next created row receives; it only grows, so an id is
        never handed out twice, not even after its row is deleted. */
    var nextId: int

    ghost predicate Valid()
      reads this
    {
      WellFormed(bookmarks, nextId)
    }

    /** An empty table. */
    constructor ()
      ensures Valid()
      ensures bookmarks == map[] && nextId == 1
    {
      bookmarks := map[];
      nextId := 1;
    }

    /** `createBookmark`: store a new row under a fresh id, owned by the
        caller, with the DTO's title, link and description. */
    method CreateBookmark(userId: int, dto: CreateBookmarkDto) returns (b: Bookmark)
      requires Valid()
      modifies this
      ensures Valid()
      ensures b.id == old(nextId)
      ensures b.id !in old(bookmarks) && forall k :: k in old(bookmarks) ==> k < b.id
      ensures b.userId == userId
      ensures b.title == dto.title && b.link == dto.link && b.description == dto.description
      ensures bookmarks == old(bookmarks)[b.id := b]
      ensures nextId == old(nextId) + 1
      ensures forall k :: k in old(bookmarks) ==> k in bookmarks && bookmarks[k] == old(bookmarks)[k]
      ensures GetBookmarks(bookmarks, nextId, userId) == GetBookmarks(old(bookmarks), old(nextId), userId) + [b]
      ensures forall v :: v != userId ==>
                GetBookmarks(bookmarks, nextId, v) == GetBookmarks(old(bookmarks), old(nextId), v)
    {
      // The DTO carries no userId, so `{ userId, ...dto }` keeps the caller as owner.
      b := Bookmark(nextId, userId, dto.title, dto.link, dto.description);
      ghost var t, n := bookmarks, nextId;
      bookmarks := bookmarks[nextId := b];
      nextId := nextId + 1;
      forall v {
        ListAfterCreate(t, n, b, v);
      }
    }

    /** `editBookmarkbyId`: behind the ownership gate, overwrite the fields
        present in the DTO and return the stored record. */
    method EditBookmarkById(userId: int, bookmarkId: int, dto: EditBookmarkDto)
      returns (r: Result<Bookmark, Error>)
      requires Valid()
      modifies this
      ensures Valid()
      ensures nextId == old(nextId)
      ensures r.Failure? <==> bookmarkId !in old(bookmarks) || old(bookmarks)[bookmarkId].userId != userId
      ensures r.Failure? ==> r.error == Forbidden(AccessDenied) && bookmarks == old(bookmarks)
      ensures r.Success? ==> r.value == ApplyEdit(old(bookmarks)[bookmarkId], dto)
      ensures r.Success? ==> r.value.id == bookmarkId && r.value.userId == userId
      ensures r.Success? ==> bookmarks == old(bookmarks)[bookmarkId := r.value]
      ensures r.Success? ==> ReplacedIn(GetBookmarks(old(bookmarks), old(nextId), userId),
                                        GetBookmarks(bookmarks, nextId, userId),
                                        old(bookmarks)[bookmarkId], r.value)
      ensures forall k :: k in old(bookmarks) && old(bookmarks)[k].userId != userId ==>
                k in bookmarks && bookmarks[k] == old(bookmarks)[k]
      ensures forall v :: v != userId ==>
                GetBookmarks(bookmarks, nextId, v) == GetBookmarks(old(bookmarks), old(nextId), v)
    {
      var gate := Authorize(bookmarks, userId, bookmarkId);
      if gate.Failure? {
        return Failure(gate.error);
      }
      ghost var t := bookmarks;
      var updated := ApplyEdit(gate.value, dto);
      bookmarks := bookmarks[bookmarkId := updated];
      r := Success(updated);
      forall v {
        ListAfterEdit(t, nextId, updated, v);
      }
    }

    /** `deleteBookmarkbyId`: behind the ownership gate, remove the row. */
    method DeleteBookmarkById(userId: int, bookmarkId: int) returns (r: Outcome<Error>)
      requires Valid()
      modifies this
      ensures Valid()
      ensures nextId == old(nextId)
      ensures r.Fail? <==> bookmarkId !in old(bookmarks) || old(bookmarks)[bookmarkId].userId != userId
      ensures r.Fail? ==> r.error == Forbidden(AccessDenied) && bookmarks == old(bookmarks)
      ensures r.Pass? ==> bookmarks == old(bookmarks) - {bookmarkId}
      ensures r.Pass? ==> RemovedFrom(GetBookmarks(old(bookmarks), old(nextId), userId),
                                      GetBookmarks(bookmarks, nextId, userId),
                                      old(bookmarks)[bookmarkId])
      ensures forall k :: k in old(bookmarks) && old(bookmarks)[k].userId != userId ==>
                k in bookmarks && bookmarks[k] == old(bookmarks)[k]
      ensures forall v :: v != userId ==>
                GetBookmarks(bookmarks, nextId, v) == GetBookmarks(old(bookmarks), old(nextId), v)
    {
      var gate := Authorize(bookmarks, userId, bookmarkId);
      if gate.Failure? {
        return Fail(gate.error);
      }
      ghost var t := bookmarks;
      bookmarks := bookmarks - {bookmarkId};
      r := Pass;
      forall v {
        ListAfterDelete(t, nextId, bookmarkId, v);
      }
    }
  }

  /** The bookmark scenario of the end-to-end suite, followed through the
      contracts above, with a second user added to exercise the ownership
      rules: an empty list, one create, lookup, an edit of title and
      description, a refused edit and delete by the other user, the delete,
      an empty list again, a second delete that is refused, and a new row
      that does not reuse the deleted row's id. */
  method EndToEndScenario() {
    var svc := new BookmarkService();
    var owner, other := 1, 2;
    assert GetBookmarks(svc.bookmarks, svc.nextId, owner) == [];

    var created := svc.CreateBookmark(owner,
      CreateBookmarkDto("First Bookmark", "https://www.youtube.com/watch?v=GHTA143_b-s", None));
    assert GetBookmarks(svc.bookmarks, svc.nextId, owner) == [created];
    assert GetBookmarkById(svc.bookmarks, owner, created.id) == Some(created);
    assert GetBookmarkById(svc.bookmarks, other, created.id) == None;

    var edited := svc.EditBookmarkById(owner, created.id,
      EditBookmarkDto(Some("NestJs Course for Beginners - Create a REST API"), None,
                      Some("Learn NestJs by building a CRUD REST API")));
    assert edited.Success?;
    assert edited.value.title == "NestJs Course for Beginners - Create a REST API";
    assert edited.value.description == Some("Learn NestJs by building a CRUD REST API");
    assert edited.value.link == created.link;

    var intruderEdit := svc.EditBookmarkById(other, created.id, EditBookmarkDto(Some("x"), None, None));
    assert intruderEdit == Failure(Forbidden(AccessDenied));
    var intruderDelete := svc.DeleteBookmarkById(other, created.id);
    assert intruderDelete == Fail(Forbidden(AccessDenied));
    assert svc.bookmarks[created.id] == edited.value;

    var deleted := svc.DeleteBookmarkById(owner, created.id);
    assert deleted == Pass;
    assert GetBookmarks(svc.bookmarks, svc.nextId, owner) == [];

    var again := svc.DeleteBookmarkById(owner, created.id);
    assert again == Fail(Forbidden(AccessDenied));

    var recreated := svc.CreateBookmark(owner,
      CreateBookmarkDto("First Bookmark", "https://www.youtube.com/watch?v=GHTA143_b-s", None));
    assert recreated.id != created.id;
  }
}
