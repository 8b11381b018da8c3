/** The book handlers (src/routes/bookRoutes.js), each run after the gate
    with the authenticated user. The image upload is the `upload` oracle,
    the image delete the `destroy` oracle (true when it succeeds), and the
    creation timestamp the `now` parameter. */
module BookRoutes {
  import opened Wrappers
  import opened Text
  import opened Model
  import opened Ordering
  import opened Http

  const MsgFillAllFields := "Please fill all fields"
  const MsgBookNotFound := "Book Not Found..."
  const MsgUnauthorized := "Unauthorized"
  const MsgBookDeleted := "Book Deleted Successfully"
  const ImageHostMarker := "cloudinary"

  const DefaultPage := 1
  const DefaultLimit := 5

  /** The create request body. `rating` is a number; 0 is falsy like an absent one. */
  datatype BookRequest = BookRequest(title: Option<string>, caption: Option<string>, rating: Option<int>, image: Option<string>)

  /** What the image host answers to an upload: the `secure_url` of the
      stored image, or the failure's message. */
  datatype UploadResult = Uploaded(secureUrl: string) | UploadFailed(reason: string)

  /** Whether an image delete was issued on the image host, for which public
      id, and whether it succeeded. */
  datatype Cleanup = NoCleanup | DestroyAttempted(publicId: string, succeeded: bool)

  datatype DeleteOutcome = DeleteOutcome(handled: Handled, cleanup: Cleanup)

  predicate RatingGiven(r: Option<int>) {
    r.Some? && r.value != 0
  }

  ghost predicate BookFieldsGiven(req: BookRequest) {
    Filled(req.image) && Filled(req.caption) && Filled(req.title) && RatingGiven(req.rating)
  }

  /** POST `/`. A falsy field is a 400 before anything is uploaded; a failed
      upload is a 500 carrying the failure's message; otherwise exactly one
      book is appended, holding the uploaded URL and owned by the caller. */
  function CreateBook(s: Store, user: PublicUser, req: BookRequest, upload: string -> UploadResult, now: nat): (h: Handled)
    ensures h.response.status != 201 ==> h.store == s
    ensures !BookFieldsGiven(req) ==> h.response == Response(400, Msg(MsgFillAllFields))
    ensures BookFieldsGiven(req) && upload(req.image.value).UploadFailed? ==>
              h.response == Response(500, Msg(upload(req.image.value).reason))
    ensures h.response.status == 201 <==> BookFieldsGiven(req) && upload(req.image.value).Uploaded?
    ensures h.response.status == 201 ==>
              && h.store.users == s.users
              && h.store.nextId == s.nextId + 1
              && |h.store.books| == |s.books| + 1
              && h.store.books[..|s.books|] == s.books
              && var b := h.store.books[|s.books|];
                 && b.id == s.nextId
                 && b.owner == user.id
                 && b.image == upload(req.image.value).secureUrl
                 && Some(b.title) == req.title && Some(b.caption) == req.caption && Some(b.rating) == req.rating
                 && b.createdAt == now
                 && h.response.body == BookDoc(b)
  {
    if !Filled(req.image) || !Filled(req.caption) || !Filled(req.title) || !RatingGiven(req.rating) then
      Reply(s, 400, MsgFillAllFields)
    else
      match upload(req.image.value)
      case UploadFailed(reason) => Reply(s, 500, reason)
      case Uploaded(url) =>
        var b := Book(s.nextId, req.title.value, req.caption.value, req.rating.value, url, user.id, now);
        Handled(s.(books := s.books + [b], nextId := s.nextId + 1), Response(201, BookDoc(b)))
  }

  /** `Math.ceil(total / limit)` for a positive limit: the fewest pages of
      `limit` books that hold `total` books. */
  function TotalPages(total: nat, limit: nat): (pages: nat)
    requires limit > 0
    ensures pages * limit >= total
    ensures pages == 0 || (pages - 1) * limit < total
  {
    var q := (total + limit - 1) / limit;
    var r := (total + limit - 1) % limit;
    assert q * limit + r == total + limit - 1;
    q
  }

  /** `.skip(skip).limit(limit)`: at most `limit` items starting at `skip`. */
  function Window<T>(xs: seq<T>, skip: nat, limit: nat): (w: seq<T>)
    ensures |w| == if skip >= |xs| then 0 else if |xs| - skip < limit then |xs| - skip else limit
    ensures forall i :: 0 <= i < |w| ==> w[i] == xs[skip + i]
  {
    if skip >= |xs| then []
    else if |xs| - skip < limit then xs[skip..]
    else xs[skip..skip + limit]
  }

  /** The owner a listed book is populated with: the first user with the
      book's owner id, cut to id, username and profile image, or null. */
  function OwnerOf(s: Store, b: Book): (o: Option<OwnerView>)
    ensures o.None? <==> !HasUser(s, b.owner)
    ensures o.Some? ==> exists u :: u in s.users && u.id == b.owner &&
                                    o.value == OwnerView(u.id, u.username, u.profileImage)
  {
    match UserById(s, b.owner)
    case None => None
    case Some(u) => Some(OwnerView(u.id, u.username, u.profileImage))
  }

  function Populate(s: Store, bs: seq<Book>): (r: seq<ListedBook>)
    ensures |r| == |bs|
    ensures forall i :: 0 <= i < |r| ==> r[i].book == bs[i] && r[i].owner == OwnerOf(s, bs[i])
  {
    seq(|bs|, i requires 0 <= i < |bs| => ListedBook(bs[i], OwnerOf(s, bs[i])))
  }

  /** `skip = (page - 1) * limit`: the books on the pages before `page`. */
  function Skip(page: nat, limit: nat): nat
    requires page >= 1
  {
    (page - 1) * limit
  }

  /** GET `/`. Page and limit default to 1 and 5; the page holds at most
      `limit` books of the whole collection taken newest first, starting
      after the first (page - 1) * limit; the counts are over all books. */
  function ListBooks(s: Store, page: Option<nat>, limit: Option<nat>): (h: Handled)
    requires page.Some? ==> page.value >= 1
    requires limit.Some? ==> limit.value >= 1
    ensures h.store == s && h.response.status == 200 && h.response.body.Page?
    ensures h.response.body.currentPage == page.GetOr(DefaultPage)
    ensures h.response.body.totalBooks == |s.books|
    ensures h.response.body.totalPages == TotalPages(|s.books|, limit.GetOr(DefaultLimit))
    ensures var skip, l := Skip(page.GetOr(DefaultPage), limit.GetOr(DefaultLimit)), limit.GetOr(DefaultLimit);
      |h.response.body.listed| == (if skip >= |s.books| then 0
                                   else if |s.books| - skip < l then |s.books| - skip
                                   else l)
    ensures var skip := Skip(page.GetOr(DefaultPage), limit.GetOr(DefaultLimit));
      var listed := h.response.body.listed;
      forall i :: 0 <= i < |listed| ==>
        skip + i < |s.books| &&
        listed[i].book == SortNewest(s.books)[skip + i] &&
        listed[i].owner == OwnerOf(s, listed[i].book)
  {
    var p := page.GetOr(DefaultPage);
    var l := limit.GetOr(DefaultLimit);
    var sorted := SortNewest(s.books);
    var books := Window(sorted, Skip(p, l), l);
    var pages := TotalPages(|s.books|, l);
    Handled(s, Response(200, Page(Populate(s, books), p, |s.books|, pages)))
  }

  /** `a <= b` scales with a non-negative factor. */
  lemma MulMonotone(a: nat, b: nat, l: nat)
    requires a <= b
    ensures a * l <= b * l
  {
    assert b * l == a * l + (b - a) * l;
  }

  /** A page has books exactly when its number is between 1 and totalPages. */
  lemma PageNonEmptyIff(total: nat, page: nat, limit: nat)
    requires page >= 1 && limit >= 1
    ensures Skip(page, limit) < total <==> page <= TotalPages(total, limit)
  {
    var pages := TotalPages(total, limit);
    if page <= pages {
      MulMonotone(page - 1, pages - 1, limit);
    } else {
      MulMonotone(pages, page - 1, limit);
    }
  }

  /** Twelve books, page 2 of 5: the sixth to tenth newest, of three pages. */
  lemma SecondPageOfTwelve(s: Store)
    requires |s.books| == 12
    ensures var body := ListBooks(s, Some(2), Some(5)).response.body;
      && |body.listed| == 5
      && body.totalPages == 3
      && body.totalBooks == 12
      && forall i :: 0 <= i < 5 ==> body.listed[i].book == SortNewest(s.books)[5 + i]
  {
    assert Skip(2, 5) == 5;
    var n := TotalPages(12, 5);
    assert n * 5 >= 12 && (n == 0 || (n - 1) * 5 < 12);
  }

  /** The image host's public id of an image URL: the last '/'-separated
      piece of the URL, cut at its first '.'. */
  function PublicId(url: string): (id: string)
    ensures '/' !in id && '.' !in id
  {
    var last := LastPiece(url, '/');
    var id := FirstPiece(last, '.');
    SplitFirst(last, '.');
    assert forall k :: 0 <= k < |id| ==> id[k] == last[k];
    id
  }

  /** The public id is the piece of the URL after its last '/' and before
      the first '.' that follows: free of both characters. */
  lemma PublicIdSpec(url: string)
    ensures var id := PublicId(url);
      && '/' !in id && '.' !in id
      && exists k :: 0 <= k <= |url| - |id| && url[k..k + |id|] == id
           && (k == 0 || url[k - 1] == '/') && '/' !in url[k..]
           && (k + |id| == |url| || url[k + |id|] == '.')
  {
    var last := LastPiece(url, '/');
    var id := FirstPiece(last, '.');
    SplitLast(url, '/');
    SplitFirst(last, '.');
    var k := |url| - |last|;
    assert url[k..] == last;
    assert url[k..k + |id|] == last[..|id|];
    assert forall c :: c in id ==> c in last;
    if k + |id| < |url| {
      assert url[k + |id|] == last[|id|];
    }
  }

  /** Which delete is issued on the image host for a stored image: one only
      for a non-empty URL that mentions the image host. */
  function CleanupFor(image: string, destroy: string -> bool): (c: Cleanup)
    ensures c.DestroyAttempted? <==> image != "" && exists i: nat :: MatchesAt(image, ImageHostMarker, i)
    ensures c.DestroyAttempted? ==> c.publicId == PublicId(image) && c.succeeded == destroy(c.publicId)
  {
    if image != "" && Contains(image, ImageHostMarker) then
      var id := PublicId(image);
      DestroyAttempted(id, destroy(id))
    else NoCleanup
  }

  /** `i` is the position of the first book with id `id`: the one `findById` returns. */
  ghost predicate FirstWithId(bs: seq<Book>, id: Id, i: int) {
    0 <= i < |bs| && bs[i].id == id && forall j :: 0 <= j < i ==> bs[j].id != id
  }

  /** DELETE `/:id`. An unknown id is a 404 and someone else's book a 401,
      both leaving the store alone and touching no image. The owner's delete
      removes the book whatever the image delete does. */
  function DeleteBook(s: Store, user: PublicUser, id: Id, destroy: string -> bool): (d: DeleteOutcome)
    ensures !HasBook(s, id) ==>
              d == DeleteOutcome(Reply(s, 404, MsgBookNotFound), NoCleanup)
    ensures d.handled.response.status != 200 ==> d.handled.store == s && d.cleanup == NoCleanup
    ensures d.handled.response.status in {200, 401, 404}
    ensures d.handled.response.status == 401 <==>
              exists i :: FirstWithId(s.books, id, i) && s.books[i].owner != user.id
    ensures d.handled.response.status == 401 ==> d.handled.response.body == Msg(MsgUnauthorized)
    ensures d.handled.response.status == 200 <==>
              exists i :: FirstWithId(s.books, id, i) && s.books[i].owner == user.id
    ensures d.handled.response.status == 200 ==>
              && d.handled.response.body == Msg(MsgBookDeleted)
              && d.handled.store.users == s.users
              && d.handled.store.nextId == s.nextId
              && (forall b :: multiset(d.handled.store.books)[b] ==
                               if b.id == id then 0 else multiset(s.books)[b])
              && SubsequenceOf(d.handled.store.books, s.books)
              && exists i :: FirstWithId(s.books, id, i) && d.cleanup == CleanupFor(s.books[i].image, destroy)
  {
    match BookById(s, id)
    case None =>
      assert forall i :: 0 <= i < |s.books| ==> s.books[i] in s.books;
      DeleteOutcome(Reply(s, 404, MsgBookNotFound), NoCleanup)
    case Some(b) =>
      if b.owner != user.id then DeleteOutcome(Reply(s, 401, MsgUnauthorized), NoCleanup)
      else
        var cleanup := CleanupFor(b.image, destroy);
        var rest := Filter(s.books, IdIsNot(id));
        FilterInOrder(s.books, IdIsNot(id));
        DeleteOutcome(Reply(s.(books := rest), 200, MsgBookDeleted), cleanup)
  }

  /** The image delete's result changes neither the store nor the response. */
  lemma DeleteIgnoresDestroyResult(s: Store, user: PublicUser, id: Id, d1: string -> bool, d2: string -> bool)
    ensures DeleteBook(s, user, id, d1).handled == DeleteBook(s, user, id, d2).handled
  {
  }

  /** In a store with distinct book ids, the owner's delete removes one book. */
  lemma DeleteRemovesOneBook(s: Store, user: PublicUser, id: Id, destroy: string -> bool)
    requires DistinctIds(s.books)
    requires DeleteBook(s, user, id, destroy).handled.response.status == 200
    ensures |DeleteBook(s, user, id, destroy).handled.store.books| == |s.books| - 1
  {
    var k :| FirstWithId(s.books, id, k) && s.books[k].owner == user.id;
    forall j | 0 <= j < |s.books| && j != k ensures s.books[j].id != id {
      if j < k {} else {}
    }
    FilterDropsUnique(s.books, id, k);
  }

  /** GET `/user`. Exactly the caller's books, each as often as stored,
      newest first, as a plain array. */
  function BooksOfUser(s: Store, user: PublicUser): (h: Handled)
    ensures h.store == s && h.response.status == 200 && h.response.body.Books?
    ensures NewestFirst(h.response.body.books)
    ensures forall b :: multiset(h.response.body.books)[b] ==
                        if b.owner == user.id then multiset(s.books)[b] else 0
  {
    var mine := Filter(s.books, OwnedBy(user.id));
    Handled(s, Response(200, Books(SortNewest(mine))))
  }
}
