/** The bookmark table and the pure logic of the bookmark service: the
    record and DTO shapes, the two read queries, the ownership gate shared
    by edit and delete, the partial-update rule of edit, and how each kind
    of table change moves a user's bookmark list. */
module Bookmarks {
  import opened Wrappers

  /** One row of the `bookmark` table. The timestamps the persistence layer
      maintains are not part of the model. */
  datatype Bookmark = Bookmark(
    id: int,
    userId: int,
    title: string,
    link: string,
    description: Option<string>)

  /** The body accepted by create: the whitelisting validation pipe strips
      every other field, so in particular it never carries a `userId`. */
  datatype CreateBookmarkDto = CreateBookmarkDto(
    title: string,
    link: string,
    description: Option<string>)

  /** The body accepted by edit: every field may be absent (`None`). */
  datatype EditBookmarkDto = EditBookmarkDto(
    title: Option<string>,
    link: Option<string>,
    description: Option<string>)

  /** The message of the `ForbiddenException` thrown by the ownership gate. */
  const AccessDenied: string := "Access to resources denied"

  datatype Error = Forbidden(message: string)

  /** The table: each row is stored under its own id. */
  ghost predicate KeysMatchIds(t: map<int, Bookmark>) {
    forall k :: k in t ==> t[k].id == k
  }

  /** The table together with its autoincrement counter: ids start at 1 and
      every stored id is below the next id to be handed out. */
  ghost predicate WellFormed(t: map<int, Bookmark>, nextId: int) {
    1 <= nextId && forall k :: k in t ==> 1 <= k < nextId && t[k].id == k
  }

  /** The row stored under `k`, as a list of length one, when `u` owns it. */
  function Entry(t: map<int, Bookmark>, u: int, k: int): seq<Bookmark> {
    if k in t && t[k].userId == u then [t[k]] else []
  }

  /** The rows with ids in [lo, hi) owned by `u`, in ascending id order. */
  function ListRange(t: map<int, Bookmark>, u: int, lo: int, hi: int): seq<Bookmark>
    decreases hi - lo
  {
    if lo >= hi then [] else Entry(t, u, lo) + ListRange(t, u, lo + 1, hi)
  }

  /** ListRange holds exactly the rows of `u` with ids in [lo, hi), in
      strictly ascending id order. */
  lemma {:induction false} ListRangeExact(t: map<int, Bookmark>, u: int, lo: int, hi: int)
    requires KeysMatchIds(t)
    ensures forall b :: b in ListRange(t, u, lo, hi) <==>
              lo <= b.id < hi && b.id in t && t[b.id] == b && b.userId == u
    ensures forall i, j :: 0 <= i < j < |ListRange(t, u, lo, hi)| ==>
              ListRange(t, u, lo, hi)[i].id < ListRange(t, u, lo, hi)[j].id
    decreases hi - lo
  {
    if lo < hi {
      ListRangeExact(t, u, lo + 1, hi);
      var e, rest := Entry(t, u, lo), ListRange(t, u, lo + 1, hi);
      var r := e + rest;
      assert ListRange(t, u, lo, hi) == r;
      forall i, j | 0 <= i < j < |r| ensures r[i].id < r[j].id {
        if i < |e| {
          assert r[i] == t[lo] && r[j] == rest[j - |e|] && rest[j - |e|] in rest;
        } else {
          assert r[i] == rest[i - |e|] && r[j] == rest[j - |e|];
        }
      }
    }
  }

  /** `getBookmarks`: every row whose owner is `u`, each once; the empty
      list, not an error, when `u` owns nothing. `findMany` promises no
      order, so the ascending id order here is the model's own choice. */
  function GetBookmarks(t: map<int, Bookmark>, nextId: int, u: int): (r: seq<Bookmark>)
    requires WellFormed(t, nextId)
    ensures forall b :: b in r <==> b.id in t && t[b.id] == b && b.userId == u
    ensures forall i, j :: 0 <= i < j < |r| ==> r[i].id < r[j].id
    ensures r == [] <==> forall k :: k in t ==> t[k].userId != u
  {
    ListRangeExact(t, u, 1, nextId);
    var r := ListRange(t, u, 1, nextId);
    assert r != [] ==> r[0] in r;
    r
  }

  /** `getBookmarkbyId`: the row matching both the id and the owner, or
      `None` (null). A row that exists but belongs to someone else gives
      `None`, exactly as a missing row does; nothing is thrown. */
  function GetBookmarkById(t: map<int, Bookmark>, u: int, bookmarkId: int): (r: Option<Bookmark>)
    requires KeysMatchIds(t)
    ensures r.Some? <==> bookmarkId in t && t[bookmarkId].userId == u
    ensures r.Some? ==> r.value == t[bookmarkId] && r.value.id == bookmarkId && r.value.userId == u
  {
    if bookmarkId in t && t[bookmarkId].userId == u then Some(t[bookmarkId]) else None
  }

  /** The ownership gate of edit and delete: look the row up by id alone,
      and throw `Forbidden` when it is missing or owned by another user. */
  function Authorize(t: map<int, Bookmark>, u: int, bookmarkId: int): (r: Result<Bookmark, Error>)
    ensures r.Success? <==> bookmarkId in t && t[bookmarkId].userId == u
    ensures r.Success? ==> r.value == t[bookmarkId]
    ensures r.Failure? ==> r.error == Forbidden(AccessDenied)
  {
    var found := if bookmarkId in t then Some(t[bookmarkId]) else None;
    if found.None? || found.value.userId != u then Failure(Forbidden(AccessDenied))
    else Success(found.value)
  }

  /** Prisma's update with `{ ...dto }`: each field present in the DTO
      overwrites the stored one, each absent field keeps its stored value,
      and the id and the owner never change. */
  function ApplyEdit(b: Bookmark, dto: EditBookmarkDto): (r: Bookmark)
    ensures r.id == b.id && r.userId == b.userId
    ensures r.title == (if dto.title.Some? then dto.title.value else b.title)
    ensures r.link == (if dto.link.Some? then dto.link.value else b.link)
    ensures r.description == (if dto.description.Some? then dto.description else b.description)
  {
    b.(title := dto.title.GetOr(b.title),
       link := dto.link.GetOr(b.link),
       description := if dto.description.Some? then dto.description else b.description)
  }

  /** An edit whose fields are all absent leaves the record as it was. */
  lemma EmptyEditIsIdentity(b: Bookmark)
    ensures ApplyEdit(b, EditBookmarkDto(None, None, None)) == b
  {
  }

  /** Applying the same edit twice is the same as applying it once. */
  lemma EditIsIdempotent(b: Bookmark, dto: EditBookmarkDto)
    ensures ApplyEdit(ApplyEdit(b, dto), dto) == ApplyEdit(b, dto)
  {
  }

  /** The later of two fields wins, an absent later field keeps the earlier. */
  function Later<T>(first: Option<T>, second: Option<T>): Option<T> {
    if second.Some? then second else first
  }

  /** Two successive edits amount to one edit in which the later DTO's
      present fields win. */
  lemma EditsCompose(b: Bookmark, first: EditBookmarkDto, second: EditBookmarkDto)
    ensures ApplyEdit(ApplyEdit(b, first), second)
         == ApplyEdit(b, EditBookmarkDto(Later(first.title, second.title),
                                         Later(first.link, second.link),
                                         Later(first.description, second.description)))
  {
  }

  /** The gate of edit/delete and the lookup of `getBookmarkbyId` grant
      access to exactly the same rows and see the same record; they differ
      only in reporting a refusal (`Forbidden` against `None`). */
  lemma GateAgreesWithLookup(t: map<int, Bookmark>, u: int, bookmarkId: int)
    requires KeysMatchIds(t)
    ensures Authorize(t, u, bookmarkId).Success? <==> GetBookmarkById(t, u, bookmarkId).Some?
    ensures Authorize(t, u, bookmarkId).Success? ==>
              Authorize(t, u, bookmarkId).value == GetBookmarkById(t, u, bookmarkId).value
  {
  }

  /** `getBookmarkbyId(u, id)` finds a record exactly when `u`'s list holds
      a record with that id, and then it finds that one. */
  lemma LookupAgreesWithList(t: map<int, Bookmark>, nextId: int, u: int, bookmarkId: int)
    requires WellFormed(t, nextId)
    ensures GetBookmarkById(t, u, bookmarkId).Some? <==>
              exists i :: 0 <= i < |GetBookmarks(t, nextId, u)| && GetBookmarks(t, nextId, u)[i].id == bookmarkId
    ensures forall b :: b in GetBookmarks(t, nextId, u) && b.id == bookmarkId ==>
              GetBookmarkById(t, u, bookmarkId) == Some(b)
  {
    var l := GetBookmarks(t, nextId, u);
    if GetBookmarkById(t, u, bookmarkId).Some? {
      var b := t[bookmarkId];
      assert b in l;
      var i :| 0 <= i < |l| && l[i] == b;
      assert l[i].id == bookmarkId;
    }
  }

  /** A list that turns into `after` once the record `x` is replaced by `y`. */
  ghost predicate ReplacedIn(before: seq<Bookmark>, after: seq<Bookmark>, x: Bookmark, y: Bookmark) {
    exists i :: 0 <= i < |before| && before[i] == x && after == before[i := y]
  }

  /** A list that turns into `after` once the record `x` is taken out. */
  ghost predicate RemovedFrom(before: seq<Bookmark>, after: seq<Bookmark>, x: Bookmark) {
    exists i :: 0 <= i < |before| && before[i] == x && after == before[..i] + before[i + 1..]
  }

  // Lemmas about ListRange, used to follow a user's list through table changes.

  lemma {:induction false} ListSplit(t: map<int, Bookmark>, u: int, lo: int, mid: int, hi: int)
    requires lo <= mid <= hi
    ensures ListRange(t, u, lo, hi) == ListRange(t, u, lo, mid) + ListRange(t, u, mid, hi)
    decreases mid - lo
  {
    if lo < mid {
      ListSplit(t, u, lo + 1, mid, hi);
      calc {
        ListRange(t, u, lo, hi);
        Entry(t, u, lo) + ListRange(t, u, lo + 1, hi);
        Entry(t, u, lo) + (ListRange(t, u, lo + 1, mid) + ListRange(t, u, mid, hi));
        (Entry(t, u, lo) + ListRange(t, u, lo + 1, mid)) + ListRange(t, u, mid, hi);
        ListRange(t, u, lo, mid) + ListRange(t, u, mid, hi);
      }
    }
  }

  lemma {:induction false} ListAgree(t1: map<int, Bookmark>, t2: map<int, Bookmark>, u: int, lo: int, hi: int)
    requires forall k :: lo <= k < hi ==> Entry(t1, u, k) == Entry(t2, u, k)
    ensures ListRange(t1, u, lo, hi) == ListRange(t2, u, lo, hi)
    decreases hi - lo
  {
    if lo < hi {
      ListAgree(t1, t2, u, lo + 1, hi);
    }
  }

  /** A range of `u`'s rows cut around one id: what comes before it, its
      own entry, and what comes after. */
  lemma ListAround(t: map<int, Bookmark>, u: int, lo: int, k: int, hi: int)
    requires lo <= k < hi
    ensures ListRange(t, u, lo, hi) == ListRange(t, u, lo, k) + Entry(t, u, k) + ListRange(t, u, k + 1, hi)
  {
    ListSplit(t, u, lo, k, hi);
    ListSplit(t, u, k, k + 1, hi);
  }

  /** Create: the new row, stored under the next id, is appended to its
      owner's list; every other user's list is unchanged. */
  lemma ListAfterCreate(t: map<int, Bookmark>, nextId: int, b: Bookmark, u: int)
    requires WellFormed(t, nextId)
    requires b.id == nextId
    ensures WellFormed(t[nextId := b], nextId + 1)
    ensures GetBookmarks(t[nextId := b], nextId + 1, u)
         == if b.userId == u then GetBookmarks(t, nextId, u) + [b] else GetBookmarks(t, nextId, u)
  {
    var t' := t[nextId := b];
    ListSplit(t', u, 1, nextId, nextId + 1);
    ListAgree(t, t', u, 1, nextId);
    assert ListRange(t', u, nextId, nextId + 1) == Entry(t', u, nextId);
  }

  /** Edit: a row rewritten under the same id and owner takes the old
      record's place in its owner's list (in the model's id order); every
      other user's list is unchanged. */
  lemma ListAfterEdit(t: map<int, Bookmark>, nextId: int, b: Bookmark, u: int)
    requires WellFormed(t, nextId)
    requires b.id in t && t[b.id].userId == b.userId
    ensures WellFormed(t[b.id := b], nextId)
    ensures b.userId == u ==> ReplacedIn(GetBookmarks(t, nextId, u), GetBookmarks(t[b.id := b], nextId, u), t[b.id], b)
    ensures b.userId != u ==> GetBookmarks(t[b.id := b], nextId, u) == GetBookmarks(t, nextId, u)
  {
    var t', id := t[b.id := b], b.id;
    assert WellFormed(t', nextId);
    var before, after := ListRange(t, u, 1, id), ListRange(t, u, id + 1, nextId);
    ListAround(t, u, 1, id, nextId);
    ListAround(t', u, 1, id, nextId);
    ListAgree(t, t', u, 1, id);
    ListAgree(t, t', u, id + 1, nextId);
    var l, l' := ListRange(t, u, 1, nextId), ListRange(t', u, 1, nextId);
    assert l == before + Entry(t, u, id) + after;
    assert l' == before + Entry(t', u, id) + after;
    if b.userId == u {
      var i := |before|;
      assert l[i] == t[id];
      assert l' == l[i := b];
      assert ReplacedIn(l, l', t[id], b);
    }
  }

  /** Delete: the removed row leaves its owner's list and nothing else moves;
      every other user's list is unchanged. */
  lemma ListAfterDelete(t: map<int, Bookmark>, nextId: int, bookmarkId: int, u: int)
    requires WellFormed(t, nextId)
    requires bookmarkId in t
    ensures WellFormed(t - {bookmarkId}, nextId)
    ensures t[bookmarkId].userId == u ==> RemovedFrom(GetBookmarks(t, nextId, u), GetBookmarks(t - {bookmarkId}, nextId, u), t[bookmarkId])
    ensures t[bookmarkId].userId != u ==> GetBookmarks(t - {bookmarkId}, nextId, u) == GetBookmarks(t, nextId, u)
  {
    var t', id := t - {bookmarkId}, bookmarkId;
    assert WellFormed(t', nextId);
    var before, after := ListRange(t, u, 1, id), ListRange(t, u, id + 1, nextId);
    ListAround(t, u, 1, id, nextId);
    ListAround(t', u, 1, id, nextId);
    ListAgree(t, t', u, 1, id);
    ListAgree(t, t', u, id + 1, nextId);
    var l, l' := ListRange(t, u, 1, nextId), ListRange(t', u, 1, nextId);
    assert l == before + Entry(t, u, id) + after;
    assert l' == before + after;
    if t[id].userId == u {
      var i := |before|;
      assert l[i] == t[id];
      assert l[..i] == before && l[i + 1..] == after;
      assert RemovedFrom(l, l', t[id]);
    }
  }
}
