/**
 * The three collections (users, books, reviews) as records, the requests the
 * handlers receive, the replies they send, the store-level lookups the
 * handlers issue (`findOne`, `$inc`), and the consistency invariant the
 * handlers keep, with one preservation lemma per kind of write.
 */
module Records {
  import opened Wrappers
  import opened Js
  import opened Validation

  // ---------------------------------------------------------------------------
  // Identifiers

  type Id = string

  predicate IsLowerHex(c: char) { IsDigit(c) || 'a' <= c <= 'f' }

  /** Stand-in for `ObjectId.isValid` / `isValidObjectId`: the 24-hex-digit form of an ObjectId. */
  predicate IsValidId(s: string) {
    |s| == 24 && Each(s, IsLowerHex)
  }

  // ---------------------------------------------------------------------------
  // Stored records

  datatype Address = Address(street: string, city: string, pincode: string)

  datatype User = User(id: Id, title: string, name: string, phone: string, email: string,
                       password: string, address: Option<Address>)

  /** `reviews` is the denormalised count of live reviews; `deletedAt` is set by a soft delete. */
  datatype Book = Book(id: Id, title: string, excerpt: string, isbn: string, category: string,
                       subcategory: string, releasedAt: string, userId: Option<string>,
                       reviews: int, isDeleted: bool, deletedAt: Option<int>)

  datatype Review = Review(id: Id, bookId: Id, reviewedBy: Option<string>, reviewedAt: int,
                           rating: int, review: string, isDeleted: bool)

  // ---------------------------------------------------------------------------
  // Requests: a string field is None when its key is absent; `otherKeys` names any further keys.

  /** The `address` field of a registration: absent, falsy (null, "", 0, false), a non-object, or an object. */
  datatype AddressInput =
    | NoAddress
    | FalsyAddress
    | NotAnObject
    | AddressObject(street: Option<string>, city: Option<string>, pincode: Option<string>)

  function KeyIf(name: string, o: Option<string>): seq<string> {
    if o.Some? then [name] else []
  }

  datatype UserRequest = UserRequest(title: Option<string>, name: Option<string>, phone: Option<string>,
                                     email: Option<string>, password: Option<string>,
                                     address: AddressInput, otherKeys: seq<string>)
  {
    /** The request body as the object `Object.keys` is applied to. */
    function Body(): JsValue {
      Obj(KeyIf("title", title) + KeyIf("name", name) + KeyIf("phone", phone) + KeyIf("email", email)
          + KeyIf("password", password) + (if address.NoAddress? then [] else ["address"]) + otherKeys)
    }
  }

  datatype LoginRequest = LoginRequest(email: Option<string>, password: Option<string>, otherKeys: seq<string>)
  {
    function Body(): JsValue {
      Obj(KeyIf("email", email) + KeyIf("password", password) + otherKeys)
    }
  }

  datatype BookRequest = BookRequest(title: Option<string>, excerpt: Option<string>, isbn: Option<string>,
                                     category: Option<string>, subcategory: Option<string>,
                                     releasedAt: Option<string>, userId: Option<string>)

  datatype BookPatch = BookPatch(title: Option<string>, excerpt: Option<string>, isbn: Option<string>,
                                 releasedAt: Option<string>, otherKeys: seq<string>)
  {
    function Body(): JsValue {
      Obj(KeyIf("title", title) + KeyIf("excerpt", excerpt) + KeyIf("ISBN", isbn)
          + KeyIf("releasedAt", releasedAt) + otherKeys)
    }
  }

  /** The query string of the book list: only these three keys are modelled. */
  datatype BookQuery = BookQuery(userId: Option<string>, category: Option<string>, subcategory: Option<string>)

  /** The body of a review creation or a review update. */
  datatype ReviewFields = ReviewFields(reviewedBy: Option<string>, review: Option<string>, rating: Option<int>)

  // ---------------------------------------------------------------------------
  // Replies

  /** The error statuses: 400 (BadRequest), 404 (NotFound) and 500 (ServerError). */
  datatype Status = BadRequest | NotFound | ServerError

  /** Which guard rejected the request (the source's message, as a kind). */
  datatype Reason =
    | EmptyBody | MissingField | InvalidField | InvalidTitle | InvalidName | InvalidPhone
    | InvalidEmail | InvalidPassword | InvalidAddress | InvalidIsbn | InvalidDate | InvalidRating
    | InvalidId | Duplicate | NoSuchBook | NoSuchReview | NoSuchUser | NotRelevant | NoData
    | NoFieldToUpdate | UndefinedFunction | CastFailure

  /** 201 with the created record, 200 with the result, or an error status. */
  datatype Reply<T> = Created(value: T) | Ok(value: T) | Fail(status: Status, reason: Reason)

  // ---------------------------------------------------------------------------
  // Store lookups

  /** The first position whose element satisfies `p` (what `findOne` returns first). */
  function FindFirst<T>(s: seq<T>, p: T -> bool): (r: Option<nat>)
    ensures r.Some? ==> r.value < |s| && p(s[r.value]) && forall k :: 0 <= k < r.value ==> !p(s[k])
    ensures r.None? ==> forall k :: 0 <= k < |s| ==> !p(s[k])
  {
    if |s| == 0 then None
    else if p(s[0]) then Some(0)
    else match FindFirst(s[1..], p)
      case None => None
      case Some(i) => Some(i + 1)
  }

  predicate IsLiveBook(b: Book, id: Id) { b.id == id && !b.isDeleted }

  predicate IsLiveReview(r: Review, id: Id) { r.id == id && !r.isDeleted }

  /** `findOne({_id: id})` on books. */
  function FindBook(books: seq<Book>, id: Id): (r: Option<nat>)
    ensures r.Some? ==> r.value < |books| && books[r.value].id == id
    ensures r.None? ==> forall k :: 0 <= k < |books| ==> books[k].id != id
  {
    FindFirst(books, (b: Book) => b.id == id)
  }

  /** `findOne({_id: id, isDeleted: false})` on books. */
  function FindLiveBook(books: seq<Book>, id: Id): (r: Option<nat>)
    ensures r.Some? ==> r.value < |books| && IsLiveBook(books[r.value], id)
    ensures r.None? ==> forall k :: 0 <= k < |books| ==> !IsLiveBook(books[k], id)
  {
    FindFirst(books, (b: Book) => IsLiveBook(b, id))
  }

  /** `findOne({_id: id, isDeleted: false})` on reviews. */
  function FindLiveReview(reviews: seq<Review>, id: Id): (r: Option<nat>)
    ensures r.Some? ==> r.value < |reviews| && IsLiveReview(reviews[r.value], id)
    ensures r.None? ==> forall k :: 0 <= k < |reviews| ==> !IsLiveReview(reviews[k], id)
  {
    FindFirst(reviews, (rv: Review) => IsLiveReview(rv, id))
  }

  /** `findOne({$or: [{title}, {ISBN}]})` on books, deleted ones included. */
  predicate TitleOrIsbnTaken(books: seq<Book>, title: string, isbn: string) {
    exists k :: 0 <= k < |books| && (books[k].title == title || books[k].isbn == isbn)
  }

  /** `findOne({title})` on books, deleted ones included. */
  predicate TitleTaken(books: seq<Book>, title: string) {
    exists k :: 0 <= k < |books| && books[k].title == title
  }

  /** `findOne({$or: [{phone}, {email}]})` on users. */
  predicate PhoneOrEmailTaken(users: seq<User>, phone: string, email: string) {
    exists k :: 0 <= k < |users| && (users[k].phone == phone || users[k].email == email)
  }

  /** `findOneAndUpdate({_id: id}, {$inc: {reviews: delta}})`: the first book with that id gets the counter moved. */
  function Bump(books: seq<Book>, id: Id, delta: int): (r: seq<Book>)
    ensures |r| == |books|
    ensures forall m :: 0 <= m < |r| && FindBook(books, id) != Some(m) ==> r[m] == books[m]
    ensures FindBook(books, id).Some? ==>
      var k := FindBook(books, id).value;
      r[k].reviews == books[k].reviews + delta && r[k].(reviews := 0) == books[k].(reviews := 0)
  {
    match FindBook(books, id)
    case None => books
    case Some(k) => books[k := books[k].(reviews := books[k].reviews + delta)]
  }

  // ---------------------------------------------------------------------------
  // Live reviews of a book

  predicate IsLiveReviewOf(r: Review, bookId: Id) { r.bookId == bookId && !r.isDeleted }

  /** `find({bookId, isDeleted: false})` on reviews, in store order. */
  function LiveReviews(reviews: seq<Review>, bookId: Id): (live: seq<Review>)
    ensures |live| <= |reviews|
  {
    if |reviews| == 0 then []
    else
      var last := reviews[|reviews| - 1];
      LiveReviews(reviews[..|reviews| - 1], bookId) + (if IsLiveReviewOf(last, bookId) then [last] else [])
  }

  /** The live reviews of a book are exactly the stored reviews of it that are not deleted. */
  lemma {:induction false} LiveReviewsExactly(reviews: seq<Review>, bookId: Id)
    ensures forall r :: r in LiveReviews(reviews, bookId) <==> r in reviews && IsLiveReviewOf(r, bookId)
  {
    if |reviews| > 0 {
      var n := |reviews| - 1;
      LiveReviewsExactly(reviews[..n], bookId);
      assert reviews == reviews[..n] + [reviews[n]];
    }
  }

  /** The positions in the store that hold a live review of the book. */
  ghost function LiveIndices(reviews: seq<Review>, bookId: Id): set<nat>
  {
    set k: nat | k < |reviews| && IsLiveReviewOf(reviews[k], bookId)
  }

  /** Every live review of the book is listed once: there are as many as there are store positions holding one. */
  lemma {:induction false} LiveReviewsCount(reviews: seq<Review>, bookId: Id)
    ensures |LiveReviews(reviews, bookId)| == |LiveIndices(reviews, bookId)|
  {
    if |reviews| > 0 {
      var n := |reviews| - 1;
      LiveReviewsCount(reviews[..n], bookId);
      var prev := LiveIndices(reviews[..n], bookId);
      assert prev == set k: nat | k < n && IsLiveReviewOf(reviews[k], bookId);
      assert n !in prev;
      if IsLiveReviewOf(reviews[n], bookId) {
        assert LiveIndices(reviews, bookId) == prev + {n};
      } else {
        assert LiveIndices(reviews, bookId) == prev;
      }
    }
  }

  /** Appending a review adds it to the live reviews of its book and to no other. */
  lemma LiveReviewsAppend(reviews: seq<Review>, r: Review, bookId: Id)
    ensures LiveReviews(reviews + [r], bookId)
         == LiveReviews(reviews, bookId) + (if IsLiveReviewOf(r, bookId) then [r] else [])
  {
    assert (reviews + [r])[..|reviews|] == reviews;
  }

  /** A book no review refers to has no live reviews. */
  lemma {:induction false} LiveReviewsNone(reviews: seq<Review>, bookId: Id)
    requires forall k :: 0 <= k < |reviews| ==> reviews[k].bookId != bookId
    ensures LiveReviews(reviews, bookId) == []
  {
    if |reviews| > 0 {
      LiveReviewsNone(reviews[..|reviews| - 1], bookId);
    }
  }

  /** Two review lists that agree, position by position, on which reviews are live reviews of a book count the same for it. */
  lemma {:induction false} LiveCountFrame(a: seq<Review>, b: seq<Review>, bookId: Id)
    requires |a| == |b|
    requires forall k :: 0 <= k < |a| ==> (IsLiveReviewOf(a[k], bookId) <==> IsLiveReviewOf(b[k], bookId))
    ensures |LiveReviews(a, bookId)| == |LiveReviews(b, bookId)|
  {
    if |a| > 0 {
      LiveCountFrame(a[..|a| - 1], b[..|b| - 1], bookId);
    }
  }

  /** Retiring one live review of a book lowers its live count by exactly one. */
  lemma {:induction false} LiveCountRetire(a: seq<Review>, b: seq<Review>, j: nat, bookId: Id)
    requires |a| == |b| && j < |a|
    requires IsLiveReviewOf(a[j], bookId) && !IsLiveReviewOf(b[j], bookId)
    requires forall k :: 0 <= k < |a| && k != j ==> (IsLiveReviewOf(a[k], bookId) <==> IsLiveReviewOf(b[k], bookId))
    ensures |LiveReviews(b, bookId)| + 1 == |LiveReviews(a, bookId)|
  {
    var n := |a| - 1;
    if j == n {
      LiveCountFrame(a[..n], b[..n], bookId);
    } else {
      LiveCountRetire(a[..n], b[..n], j, bookId);
    }
  }

  // ---------------------------------------------------------------------------
  // The consistency invariant

  /** No two users share an id, a phone number or an e-mail address. */
  ghost predicate UsersDistinct(users: seq<User>) {
    forall i, j :: 0 <= i < j < |users| ==>
      users[i].id != users[j].id && users[i].phone != users[j].phone && users[i].email != users[j].email
  }

  /** No two books, deleted ones included, share an id, a title or an ISBN. */
  ghost predicate BooksDistinct(books: seq<Book>) {
    forall i, j :: 0 <= i < j < |books| ==>
      books[i].id != books[j].id && books[i].title != books[j].title && books[i].isbn != books[j].isbn
  }

  ghost predicate ReviewIdsDistinct(reviews: seq<Review>) {
    forall i, j :: 0 <= i < j < |reviews| ==> reviews[i].id != reviews[j].id
  }

  /** Every review belongs to a stored book. */
  ghost predicate ReviewsReferenceBooks(books: seq<Book>, reviews: seq<Review>) {
    forall k :: 0 <= k < |reviews| ==> FindBook(books, reviews[k].bookId).Some?
  }

  /** The reviews of a deleted book are deleted. */
  ghost predicate CascadeClosed(books: seq<Book>, reviews: seq<Review>) {
    forall i, k :: 0 <= i < |books| && 0 <= k < |reviews| && books[i].isDeleted && reviews[k].bookId == books[i].id
      ==> reviews[k].isDeleted
  }

  /** The counter of every live book equals the number of its live reviews. */
  ghost predicate CountersExact(books: seq<Book>, reviews: seq<Review>) {
    forall i :: 0 <= i < |books| && !books[i].isDeleted ==> books[i].reviews == |LiveReviews(reviews, books[i].id)|
  }

  ghost predicate Consistent(users: seq<User>, books: seq<Book>, reviews: seq<Review>) {
    UsersDistinct(users) && BooksDistinct(books) && ReviewIdsDistinct(reviews)
    && ReviewsReferenceBooks(books, reviews) && CascadeClosed(books, reviews) && CountersExact(books, reviews)
  }

  /** With distinct ids, the first book with an id is the only one. */
  lemma FindBookUnique(books: seq<Book>, i: nat)
    requires BooksDistinct(books) && i < |books|
    ensures FindBook(books, books[i].id) == Some(i)
  {
  }

  // ---------------------------------------------------------------------------
  // Preservation: one lemma per kind of write

  /** Registering a user whose id is new and whose phone and e-mail are unused keeps the store consistent. */
  lemma UserAddedKeepsConsistent(users: seq<User>, books: seq<Book>, reviews: seq<Review>, u: User)
    requires Consistent(users, books, reviews)
    requires forall k :: 0 <= k < |users| ==> users[k].id != u.id
    requires !PhoneOrEmailTaken(users, u.phone, u.email)
    ensures Consistent(users + [u], books, reviews)
  {
    var us := users + [u];
    forall i, j | 0 <= i < j < |us|
      ensures us[i].id != us[j].id && us[i].phone != us[j].phone && us[i].email != us[j].email
    {
      if j == |users| {
        assert us[i] == users[i];
      }
    }
  }

  // Pieces of the invariant that survive a write, one lemma each

  /** Book edits that keep every id, title and ISBN in place keep them distinct. */
  lemma BooksDistinctKept(books: seq<Book>, bs: seq<Book>)
    requires BooksDistinct(books) && |bs| == |books|
    requires forall m :: 0 <= m < |books| ==>
      bs[m].id == books[m].id && bs[m].title == books[m].title && bs[m].isbn == books[m].isbn
    ensures BooksDistinct(bs)
  {
    forall m, n | 0 <= m < n < |bs| ensures bs[m].id != bs[n].id && bs[m].title != bs[n].title && bs[m].isbn != bs[n].isbn {
      assert books[m].id != books[n].id && books[m].title != books[n].title && books[m].isbn != books[n].isbn;
    }
  }

  /** Writes that keep every book id and every review's book id in place keep every review's book findable. */
  lemma ReferencesKept(books: seq<Book>, bs: seq<Book>, reviews: seq<Review>, rs: seq<Review>)
    requires |bs| == |books| && forall m :: 0 <= m < |books| ==> bs[m].id == books[m].id
    requires |rs| == |reviews| && forall k :: 0 <= k < |reviews| ==> rs[k].bookId == reviews[k].bookId
    requires ReviewsReferenceBooks(books, reviews)
    ensures ReviewsReferenceBooks(bs, rs)
  {
    forall k | 0 <= k < |rs| ensures FindBook(bs, rs[k].bookId).Some? {
      var m := FindBook(books, reviews[k].bookId).value;
      assert bs[m].id == rs[k].bookId;
    }
  }

  /** Book edits that keep every id and deletion flag in place keep the cascade closed. */
  lemma CascadeKept(books: seq<Book>, bs: seq<Book>, reviews: seq<Review>)
    requires |bs| == |books|
    requires forall m :: 0 <= m < |books| ==> bs[m].id == books[m].id && bs[m].isDeleted == books[m].isDeleted
    requires CascadeClosed(books, reviews)
    ensures CascadeClosed(bs, reviews)
  {
    forall m, k | 0 <= m < |bs| && 0 <= k < |reviews| && bs[m].isDeleted && reviews[k].bookId == bs[m].id
      ensures reviews[k].isDeleted
    {
      assert books[m].isDeleted && reviews[k].bookId == books[m].id;
    }
  }

  /** Appending a review of the live book at i, with a new id, keeps ids distinct, references findable and the cascade closed. */
  lemma ReviewAppendedShape(books: seq<Book>, reviews: seq<Review>, i: nat, r: Review)
    requires BooksDistinct(books) && ReviewIdsDistinct(reviews)
    requires ReviewsReferenceBooks(books, reviews) && CascadeClosed(books, reviews)
    requires i < |books| && IsLiveBook(books[i], r.bookId)
    requires forall k :: 0 <= k < |reviews| ==> reviews[k].id != r.id
    ensures ReviewIdsDistinct(reviews + [r])
    ensures ReviewsReferenceBooks(books, reviews + [r]) && CascadeClosed(books, reviews + [r])
  {
    var rs := reviews + [r];
    FindBookUnique(books, i);
    forall k | 0 <= k < |rs| ensures FindBook(books, rs[k].bookId).Some? {
      if k < |reviews| {
        assert rs[k] == reviews[k];
      }
    }
    forall m, k | 0 <= m < |books| && 0 <= k < |rs| && books[m].isDeleted && rs[k].bookId == books[m].id
      ensures rs[k].isDeleted
    {
      if k == |reviews| {
        assert false;
      }
      assert rs[k] == reviews[k];
    }
  }

  /** Marking the review at j deleted keeps ids distinct, references findable and the cascade closed. */
  lemma ReviewRetiredShape(books: seq<Book>, reviews: seq<Review>, j: nat)
    requires ReviewIdsDistinct(reviews) && ReviewsReferenceBooks(books, reviews) && CascadeClosed(books, reviews)
    requires j < |reviews|
    ensures var rs := reviews[j := reviews[j].(isDeleted := true)];
      ReviewIdsDistinct(rs) && ReviewsReferenceBooks(books, rs) && CascadeClosed(books, rs)
  {
    var rs := reviews[j := reviews[j].(isDeleted := true)];
    ReferencesKept(books, books, reviews, rs);
  }

  /** Appending a live review of the live book at i and raising that book's counter by one keeps every counter exact. */
  lemma CountersAfterReviewAdded(books: seq<Book>, reviews: seq<Review>, i: nat, r: Review)
    requires BooksDistinct(books) && CountersExact(books, reviews) && i < |books|
    requires IsLiveBook(books[i], r.bookId) && !r.isDeleted
    ensures CountersExact(books[i := books[i].(reviews := books[i].reviews + 1)], reviews + [r])
  {
    var bs := books[i := books[i].(reviews := books[i].reviews + 1)];
    forall m | 0 <= m < |bs| && !bs[m].isDeleted
      ensures bs[m].reviews == |LiveReviews(reviews + [r], bs[m].id)|
    {
      LiveReviewsAppend(reviews, r, books[m].id);
    }
  }

  /** Retiring the live review at j of the live book at i and lowering that book's counter by one keeps every counter exact. */
  lemma CountersAfterReviewDeleted(books: seq<Book>, reviews: seq<Review>, i: nat, j: nat)
    requires BooksDistinct(books) && CountersExact(books, reviews) && i < |books| && j < |reviews|
    requires IsLiveBook(books[i], reviews[j].bookId) && !reviews[j].isDeleted
    ensures CountersExact(books[i := books[i].(reviews := books[i].reviews - 1)],
                          reviews[j := reviews[j].(isDeleted := true)])
  {
    var bs := books[i := books[i].(reviews := books[i].reviews - 1)];
    var rs := reviews[j := reviews[j].(isDeleted := true)];
    forall m | 0 <= m < |bs| && !bs[m].isDeleted
      ensures bs[m].reviews == |LiveReviews(rs, bs[m].id)|
    {
      if m == i {
        LiveCountRetire(reviews, rs, j, books[i].id);
      } else {
        LiveCountFrame(reviews, rs, books[m].id);
      }
    }
  }

  /** Soft-deleting the book at i and every review of it leaves every live book's live reviews as they were. */
  lemma CountersAfterBookDeleted(books: seq<Book>, reviews: seq<Review>, i: nat, now: int, reviews': seq<Review>)
    requires BooksDistinct(books) && CountersExact(books, reviews) && i < |books|
    requires |reviews'| == |reviews|
    requires forall k :: 0 <= k < |reviews| ==>
      reviews'[k] == if reviews[k].bookId == books[i].id then reviews[k].(isDeleted := true) else reviews[k]
    ensures CountersExact(books[i := books[i].(isDeleted := true, deletedAt := Some(now))], reviews')
  {
    var bs := books[i := books[i].(isDeleted := true, deletedAt := Some(now))];
    forall m | 0 <= m < |bs| && !bs[m].isDeleted
      ensures bs[m].reviews == |LiveReviews(reviews', bs[m].id)|
    {
      assert m != i && bs[m] == books[m] && books[m].id != books[i].id;
      LiveCountFrame(reviews, reviews', books[m].id);
    }
  }

  // Preservation: one lemma per kind of write

  /** Appending a book whose id, title and ISBN no stored book holds keeps them distinct, and no review refers to it. */
  lemma BookAppendedShape(books: seq<Book>, reviews: seq<Review>, b: Book)
    requires BooksDistinct(books) && ReviewsReferenceBooks(books, reviews)
    requires FindBook(books, b.id).None? && !TitleOrIsbnTaken(books, b.title, b.isbn)
    ensures BooksDistinct(books + [b]) && ReviewsReferenceBooks(books + [b], reviews)
    ensures forall k :: 0 <= k < |reviews| ==> reviews[k].bookId != b.id
  {
    var bs := books + [b];
    forall i, j | 0 <= i < j < |bs|
      ensures bs[i].id != bs[j].id && bs[i].title != bs[j].title && bs[i].isbn != bs[j].isbn
    {
      if j == |books| {
        assert bs[i] == books[i];
      }
    }
    forall k | 0 <= k < |reviews| ensures FindBook(bs, reviews[k].bookId).Some? && reviews[k].bookId != b.id {
      var i := FindBook(books, reviews[k].bookId).value;
      assert bs[i].id == reviews[k].bookId;
    }
  }

  /** Adding a live book with a new id, an unused title and ISBN and a zero counter keeps the store consistent. */
  lemma BookAddedKeepsConsistent(users: seq<User>, books: seq<Book>, reviews: seq<Review>, b: Book)
    requires Consistent(users, books, reviews)
    requires FindBook(books, b.id).None? && !TitleOrIsbnTaken(books, b.title, b.isbn)
    requires !b.isDeleted && b.reviews == 0
    ensures Consistent(users, books + [b], reviews)
  {
    BookAppendedShape(books, reviews, b);
    LiveReviewsNone(reviews, b.id);
  }

  /** Rewriting a book's title, excerpt or release date, to a title no book holds, keeps the store consistent. */
  lemma BookEditedKeepsConsistent(users: seq<User>, books: seq<Book>, reviews: seq<Review>, i: nat, b: Book)
    requires Consistent(users, books, reviews) && i < |books|
    requires b.id == books[i].id && b.isbn == books[i].isbn && b.reviews == books[i].reviews
    requires b.isDeleted == books[i].isDeleted
    requires b.title == books[i].title || !TitleTaken(books, b.title)
    ensures Consistent(users, books[i := b], reviews)
  {
    ReferencesKept(books, books[i := b], reviews, reviews);
    CascadeKept(books, books[i := b], reviews);
  }

  /** Soft-deleting a live book and every review of it keeps the store consistent. */
  lemma BookDeletedKeepsConsistent(users: seq<User>, books: seq<Book>, reviews: seq<Review>,
                                   i: nat, now: int, reviews': seq<Review>)
    requires Consistent(users, books, reviews) && i < |books|
    requires |reviews'| == |reviews|
    requires forall k :: 0 <= k < |reviews| ==>
      reviews'[k] == if reviews[k].bookId == books[i].id then reviews[k].(isDeleted := true) else reviews[k]
    ensures Consistent(users, books[i := books[i].(isDeleted := true, deletedAt := Some(now))], reviews')
  {
    var bs := books[i := books[i].(isDeleted := true, deletedAt := Some(now))];
    BooksDistinctKept(books, bs);
    ReferencesKept(books, bs, reviews, reviews');
    CountersAfterBookDeleted(books, reviews, i, now, reviews');
  }

  /** Adding a live review of a live book while moving that book's counter up by one keeps the store consistent. */
  lemma ReviewAddedKeepsConsistent(users: seq<User>, books: seq<Book>, reviews: seq<Review>, i: nat, r: Review)
    requires Consistent(users, books, reviews) && i < |books|
    requires IsLiveBook(books[i], r.bookId) && !r.isDeleted
    requires forall k :: 0 <= k < |reviews| ==> reviews[k].id != r.id
    ensures Consistent(users, Bump(books, r.bookId, 1), reviews + [r])
  {
    FindBookUnique(books, i);
    var bs := books[i := books[i].(reviews := books[i].reviews + 1)];
    assert Bump(books, r.bookId, 1) == bs;
    ReviewAppendedShape(books, reviews, i, r);
    BooksDistinctKept(books, bs);
    ReferencesKept(books, bs, reviews + [r], reviews + [r]);
    CascadeKept(books, bs, reviews + [r]);
    CountersAfterReviewAdded(books, reviews, i, r);
  }

  /** Rewriting a review's own fields, keeping its id, book and deletion flag, keeps the store consistent. */
  lemma ReviewEditedKeepsConsistent(users: seq<User>, books: seq<Book>, reviews: seq<Review>, j: nat, r: Review)
    requires Consistent(users, books, reviews) && j < |reviews|
    requires r.id == reviews[j].id && r.bookId == reviews[j].bookId && r.isDeleted == reviews[j].isDeleted
    ensures Consistent(users, books, reviews[j := r])
  {
    var rs := reviews[j := r];
    ReferencesKept(books, books, reviews, rs);
    forall m | 0 <= m < |books| && !books[m].isDeleted
      ensures books[m].reviews == |LiveReviews(rs, books[m].id)|
    {
      LiveCountFrame(reviews, rs, books[m].id);
    }
  }

  /** Soft-deleting a live review of a live book while moving that book's counter down by one keeps the store consistent. */
  lemma ReviewDeletedKeepsConsistent(users: seq<User>, books: seq<Book>, reviews: seq<Review>, i: nat, j: nat)
    requires Consistent(users, books, reviews) && i < |books| && j < |reviews|
    requires IsLiveBook(books[i], reviews[j].bookId) && !reviews[j].isDeleted
    ensures Consistent(users, Bump(books, reviews[j].bookId, -1), reviews[j := reviews[j].(isDeleted := true)])
  {
    FindBookUnique(books, i);
    var bs := books[i := books[i].(reviews := books[i].reviews - 1)];
    var rs := reviews[j := reviews[j].(isDeleted := true)];
    assert Bump(books, reviews[j].bookId, -1) == bs;
    ReviewRetiredShape(books, reviews, j);
    BooksDistinctKept(books, bs);
    ReferencesKept(books, bs, rs, rs);
    CascadeKept(books, bs, rs);
    CountersAfterReviewDeleted(books, reviews, i, j);
  }
}
