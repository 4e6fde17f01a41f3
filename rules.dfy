/**
 * The guard chains of the mutating handlers, as functions of the stored
 * collections and the request: each gives the first guard that rejects (its
 * status and kind), in the order the handler checks them, or None when the
 * write goes ahead. Beside them, the record a successful write stores, and
 * lemmas about what the chains accept and reject.
 */
module Rules {
  import opened Wrappers
  import opened Js
  import opened Validation
  import opened Dates
  import opened Records
  import opened Queries

  datatype Rejection = Rejection(status: Status, reason: Reason)

  /** The error reply a rejection is sent as. */
  function Refusal<T>(rej: Rejection): Reply<T> {
    Fail(rej.status, rej.reason)
  }

  // ---------------------------------------------------------------------------
  // createUser

  predicate IsHonorific(t: string) { t == "Mr" || t == "Mrs" || t == "Miss" }

  /** All five required fields are truthy (`!title || !name || ...`). */
  predicate UserFieldsGiven(req: UserRequest) {
    Given(req.title) && Given(req.name) && Given(req.phone) && Given(req.email) && Given(req.password)
  }

  /** All five required fields pass `isValid`. */
  predicate UserFieldsValid(req: UserRequest) {
    IsValidField(req.title) && IsValidField(req.name) && IsValidField(req.phone)
    && IsValidField(req.email) && IsValidField(req.password)
  }

  /** A falsy address is skipped; a truthy one must be an object with valid street, city and pincode. */
  predicate AddressAcceptable(a: AddressInput) {
    match a
    case NoAddress => true
    case FalsyAddress => true
    case NotAnObject => false
    case AddressObject(street, city, pincode) =>
      IsValidField(street) && IsValidField(city) && IsValidField(pincode)
      && IsValidPlace(street.value) && IsValidPlace(city.value) && IsValidPincode(pincode.value)
  }

  function UserRejection(users: seq<User>, req: UserRequest): Option<Reason> {
    if !IsValidRequestBody(req.Body()) then Some(EmptyBody)
    else if !UserFieldsGiven(req) then Some(MissingField)
    else if !UserFieldsValid(req) then Some(InvalidField)
    else if !IsValidString(req.title.value) || !IsValidString(req.name.value) then Some(InvalidName)
    else if !IsHonorific(req.title.value) then Some(InvalidTitle)
    else if !IsValidMobile(req.phone.value) then Some(InvalidPhone)
    else if !IsValidEmail(req.email.value) then Some(InvalidEmail)
    else if PhoneOrEmailTaken(users, req.phone.value, req.email.value) then Some(Duplicate)
    else if !IsValidPassword(req.password.value) then Some(InvalidPassword)
    else if !AddressAcceptable(req.address) then Some(InvalidAddress)
    else None
  }

  function StoredAddress(a: AddressInput): Option<Address> {
    match a
    case AddressObject(Some(street), Some(city), Some(pincode)) => Some(Address(street, city, pincode))
    case _ => None
  }

  /** The user `create(data)` stores: the request's fields as given, password included. */
  function NewUser(req: UserRequest, id: Id): User
    requires req.title.Some? && req.name.Some? && req.phone.Some? && req.email.Some? && req.password.Some?
  {
    User(id, req.title.value, req.name.value, req.phone.value, req.email.value, req.password.value,
         StoredAddress(req.address))
  }

  /** An accepted registration has a 10-digit phone, a well-formed e-mail, a 6-15 character alphanumeric password and one of the three titles, and shares neither phone nor e-mail with a stored user. */
  lemma AcceptedUserIsWellFormed(users: seq<User>, req: UserRequest)
    requires UserRejection(users, req).None?
    ensures req.title.Some? && IsHonorific(req.title.value)
    ensures req.phone.Some? && |req.phone.value| == 10 && Each(req.phone.value, IsDigit)
    ensures req.password.Some? && 6 <= |req.password.value| <= 15 && Each(req.password.value, IsAlnum)
    ensures req.email.Some? && IsValidEmail(req.email.value)
    ensures forall k :: 0 <= k < |users| ==> users[k].phone != req.phone.value && users[k].email != req.email.value
  {
    MobileExactly(req.phone.value);
    PasswordExactly(req.password.value);
  }

  /** The duplicate check runs before the password check: a reused phone or e-mail is reported as such even with a bad password. */
  lemma DuplicateReportedBeforePassword(users: seq<User>, req: UserRequest, k: nat)
    requires UserFieldsGiven(req) && UserFieldsValid(req)
    requires IsValidString(req.title.value) && IsValidString(req.name.value) && IsHonorific(req.title.value)
    requires IsValidMobile(req.phone.value) && IsValidEmail(req.email.value)
    requires k < |users| && (users[k].phone == req.phone.value || users[k].email == req.email.value)
    ensures UserRejection(users, req) == Some(Duplicate)
  {
    assert req.Body().keys[0] == "title";
  }

  /** Once a registration is stored, any later one with the same phone or e-mail is rejected. */
  lemma SecondRegistrationRejected(users: seq<User>, req: UserRequest, id: Id, again: UserRequest)
    requires UserRejection(users, req).None?
    requires again.phone == req.phone || again.email == req.email
    ensures UserRejection(users + [NewUser(req, id)], again).Some?
    ensures UserFieldsGiven(again) && UserFieldsValid(again)
      && IsValidString(again.title.value) && IsValidString(again.name.value) && IsHonorific(again.title.value)
      && IsValidMobile(again.phone.value) && IsValidEmail(again.email.value)
      ==> UserRejection(users + [NewUser(req, id)], again) == Some(Duplicate)
  {
    var u := NewUser(req, id);
    if again.phone.Some? && again.email.Some? {
      TakenOnceStored(users, u, again.phone.value, again.email.value);
    }
    if UserFieldsGiven(again) && UserFieldsValid(again)
      && IsValidString(again.title.value) && IsValidString(again.name.value) && IsHonorific(again.title.value)
      && IsValidMobile(again.phone.value) && IsValidEmail(again.email.value)
    {
      var us := users + [u];
      assert us[|users|] == u;
      DuplicateReportedBeforePassword(us, again, |users|);
    }
  }

  lemma TakenOnceStored(users: seq<User>, u: User, phone: string, email: string)
    requires u.phone == phone || u.email == email
    ensures PhoneOrEmailTaken(users + [u], phone, email)
  {
    assert (users + [u])[|users|] == u;
  }

  // ---------------------------------------------------------------------------
  // createBook

  /** `isValid` on title, excerpt, ISBN, subcategory, category and releasedAt. */
  predicate BookFieldsValid(req: BookRequest) {
    IsValidField(req.title) && IsValidField(req.excerpt) && IsValidField(req.isbn)
    && IsValidField(req.subcategory) && IsValidField(req.category) && IsValidField(req.releasedAt)
  }

  /** `isValidRequestBody` on the same six fields (a string field: non-empty). */
  predicate BookFieldsNonEmpty(req: BookRequest)
    requires BookFieldsValid(req)
  {
    IsValidRequestBody(Str(req.title.value)) && IsValidRequestBody(Str(req.excerpt.value))
    && IsValidRequestBody(Str(req.isbn.value)) && IsValidRequestBody(Str(req.subcategory.value))
    && IsValidRequestBody(Str(req.category.value)) && IsValidRequestBody(Str(req.releasedAt.value))
  }

  function BookRejection(books: seq<Book>, req: BookRequest): Option<Reason> {
    if !BookFieldsValid(req) then Some(InvalidField)
    else if !BookFieldsNonEmpty(req) then Some(InvalidField)
    else if !IsValidISBN(req.isbn.value) then Some(InvalidIsbn)
    else if TitleOrIsbnTaken(books, req.title.value, req.isbn.value) then Some(Duplicate)
    else if !PassesDateCheck(Trim(req.releasedAt.value)) then Some(InvalidDate)
    else None
  }

  /** The book `create(body)` stores: the fields as given (releasedAt untrimmed), live, counter zero. */
  function NewBook(req: BookRequest, id: Id): Book
    requires BookFieldsValid(req)
  {
    Book(id, req.title.value, req.excerpt.value, req.isbn.value, req.category.value, req.subcategory.value,
         req.releasedAt.value, req.userId, 0, false, None)
  }

  /** The second emptiness check of createBook never fires: `isValid` already rules out the empty string. */
  lemma NonEmptyCheckIsRedundant(req: BookRequest)
    requires BookFieldsValid(req)
    ensures BookFieldsNonEmpty(req)
  {
    ValidStringHasKeys(req.title.value);
    ValidStringHasKeys(req.excerpt.value);
    ValidStringHasKeys(req.isbn.value);
    ValidStringHasKeys(req.subcategory.value);
    ValidStringHasKeys(req.category.value);
    ValidStringHasKeys(req.releasedAt.value);
  }

  /** A created book's ISBN has exactly five digits, not thirteen, and title and ISBN are unused by every stored book, deleted ones included. */
  lemma CreatedIsbnHasFiveDigits(books: seq<Book>, req: BookRequest)
    requires BookRejection(books, req).None?
    ensures |req.isbn.value| == 5 && Each(req.isbn.value, IsDigit)
    ensures forall k :: 0 <= k < |books| ==> books[k].title != req.title.value && books[k].isbn != req.isbn.value
    ensures PassesDateCheck(Trim(req.releasedAt.value))
  {
    IsbnIsFiveDigits(req.isbn.value);
  }

  /** A release date of `Invalid date`, with blanks around it, is accepted wherever a real date is, and stored as sent. */
  lemma InvalidDateTextAccepted(books: seq<Book>, req: BookRequest, id: Id)
    requires BookRejection(books, req).None?
    ensures BookRejection(books, req.(releasedAt := Some(" Invalid date  "))).None?
    ensures NewBook(req.(releasedAt := Some(" Invalid date  ")), id).releasedAt == " Invalid date  "
  {
    var req' := req.(releasedAt := Some(" Invalid date  "));
    InvalidDateTextPasses();
    assert IsValidField(req'.releasedAt);
    NonEmptyCheckIsRedundant(req');
  }

  /** A thirteen-digit ISBN is always rejected by createBook. */
  lemma ThirteenDigitIsbnRejected(books: seq<Book>, req: BookRequest)
    requires BookFieldsValid(req) && |req.isbn.value| == 13
    ensures BookRejection(books, req) == Some(InvalidIsbn)
  {
    NonEmptyCheckIsRedundant(req);
    IsbnIsFiveDigits(req.isbn.value);
  }

  /** The duplicate check runs before the date check: a duplicate with a bad date is reported as a duplicate. */
  lemma DuplicateReportedBeforeDate(books: seq<Book>, req: BookRequest, k: nat)
    requires BookFieldsValid(req) && IsValidISBN(req.isbn.value)
    requires k < |books| && (books[k].title == req.title.value || books[k].isbn == req.isbn.value)
    ensures BookRejection(books, req) == Some(Duplicate)
  {
    NonEmptyCheckIsRedundant(req);
  }

  /** A created book is found by the detail view with exactly the fields it was created with and no reviews. */
  lemma CreateThenDetail(books: seq<Book>, reviews: seq<Review>, req: BookRequest, id: Id)
    requires BookRejection(books, req).None? && IsValidId(id)
    requires FindBook(books, id).None? && forall k :: 0 <= k < |reviews| ==> reviews[k].bookId != id
    ensures GetBookById(books + [NewBook(req, id)], reviews, id) == Ok(BookDetail(NewBook(req, id), [], 0))
  {
    LiveBookAppended(books, NewBook(req, id), id);
    LiveReviewsNone(reviews, id);
  }

  /** A live book appended under an id no stored book has is the one the live lookup finds. */
  lemma LiveBookAppended(books: seq<Book>, b: Book, id: Id)
    requires FindBook(books, id).None? && IsLiveBook(b, id)
    ensures FindLiveBook(books + [b], id) == Some(|books|)
  {
    var bs := books + [b];
    assert bs[|books|] == b;
    forall k | 0 <= k < |books| ensures !IsLiveBook(bs[k], id) {
      assert bs[k] == books[k];
    }
  }

  // ---------------------------------------------------------------------------
  // updateBooks

  /** None of title, excerpt, ISBN, releasedAt is truthy. */
  predicate NothingToUpdate(patch: BookPatch) {
    !Given(patch.title) && !Given(patch.excerpt) && !Given(patch.isbn) && !Given(patch.releasedAt)
  }

  function UpdateRejection(books: seq<Book>, bookId: string, patch: BookPatch): Option<Rejection> {
    if !IsValidRequestBody(patch.Body()) then Some(Rejection(BadRequest, EmptyBody))
    else if NothingToUpdate(patch) then Some(Rejection(BadRequest, NoFieldToUpdate))
    else if Given(patch.title) && !IsValidField(patch.title) then Some(Rejection(BadRequest, InvalidTitle))
    else if Given(patch.title) && TitleTaken(books, patch.title.value) then Some(Rejection(BadRequest, Duplicate))
    else if Given(patch.excerpt) && !IsValidField(patch.excerpt) then Some(Rejection(BadRequest, InvalidField))
    else if Given(patch.isbn) && !IsValidField(patch.isbn) then Some(Rejection(BadRequest, InvalidIsbn))
    // `validateISBN` is not defined: the call throws a ReferenceError, answered with 500
    else if Given(patch.isbn) then Some(Rejection(ServerError, UndefinedFunction))
    else if Given(patch.releasedAt) && !IsValidField(patch.releasedAt) then Some(Rejection(BadRequest, InvalidField))
    else if Given(patch.releasedAt) && !PassesDateCheck(patch.releasedAt.value) then Some(Rejection(BadRequest, InvalidDate))
    // the id reaches the store unchecked; a malformed one fails the ObjectId cast
    else if !IsValidId(bookId) then Some(Rejection(ServerError, CastFailure))
    else if FindLiveBook(books, bookId).None? then Some(Rejection(NotFound, NoSuchBook))
    else None
  }

  /** `updateData`: only the truthy fields among title, excerpt and releasedAt replace the stored ones. */
  function Patched(b: Book, patch: BookPatch): Book {
    b.(title := if Given(patch.title) then patch.title.value else b.title,
       excerpt := if Given(patch.excerpt) then patch.excerpt.value else b.excerpt,
       releasedAt := if Given(patch.releasedAt) then patch.releasedAt.value else b.releasedAt)
  }

  /** An update carrying a truthy ISBN never writes: it is rejected, at the latest by the 500 of the undefined function. */
  lemma IsbnUpdateNeverWrites(books: seq<Book>, bookId: string, patch: BookPatch)
    requires Given(patch.isbn)
    ensures UpdateRejection(books, bookId, patch).Some?
    ensures IsValidField(patch.isbn) && !NothingToUpdate(patch)
      && !(Given(patch.title) && (!IsValidField(patch.title) || TitleTaken(books, patch.title.value)))
      && !(Given(patch.excerpt) && !IsValidField(patch.excerpt))
      ==> UpdateRejection(books, bookId, patch) == Some(Rejection(ServerError, UndefinedFunction))
  {
    assert patch.Body().keys != [];
  }

  /** Re-submitting a book's own title is rejected as a duplicate: the uniqueness check does not exclude the book itself. */
  lemma OwnTitleRejected(books: seq<Book>, i: nat, patch: BookPatch)
    requires i < |books| && patch.title == Some(books[i].title) && IsValidField(patch.title)
    ensures UpdateRejection(books, books[i].id, patch) == Some(Rejection(BadRequest, Duplicate))
  {
    assert patch.Body().keys[0] == "title";
    assert Given(patch.title);
  }

  /** A successful update keeps the book's identity, ISBN, counter and deletion state, and a new title is held by no other book. */
  lemma UpdatedBookStaysUnique(books: seq<Book>, bookId: string, patch: BookPatch)
    requires BooksDistinct(books) && UpdateRejection(books, bookId, patch).None?
    ensures var i := FindLiveBook(books, bookId).value;
      var b := Patched(books[i], patch);
      && b.id == books[i].id && b.isbn == books[i].isbn && b.reviews == books[i].reviews && !b.isDeleted
      && BooksDistinct(books[i := b])
  {
    var i := FindLiveBook(books, bookId).value;
    var bs := books[i := Patched(books[i], patch)];
    forall m, n | 0 <= m < n < |bs| ensures bs[m].title != bs[n].title {
      if Given(patch.title) && (m == i || n == i) {
        assert !TitleTaken(books, patch.title.value);
        assert books[if m == i then n else m].title != patch.title.value;
      }
    }
  }

  // ---------------------------------------------------------------------------
  // deleteBookById

  function DeleteBookRejection(books: seq<Book>, bookId: string): Option<Rejection> {
    if !IsValidId(bookId) then Some(Rejection(ServerError, CastFailure))
    else if FindLiveBook(books, bookId).None? then Some(Rejection(NotFound, NoSuchBook))
    else None
  }

  /** `updateMany({bookId, isDeleted: false}, {isDeleted: true})` on one review. */
  function CascadeReview(r: Review, bookId: Id): Review {
    if r.bookId == bookId && !r.isDeleted then r.(isDeleted := true) else r
  }

  /** `updateMany` over the whole review collection. */
  function Cascade(reviews: seq<Review>, bookId: Id): (rs: seq<Review>)
    ensures |rs| == |reviews|
    ensures forall k :: 0 <= k < |rs| ==> rs[k].(isDeleted := false) == reviews[k].(isDeleted := false)
    ensures forall k :: 0 <= k < |rs| ==> (rs[k].isDeleted <==> reviews[k].isDeleted || reviews[k].bookId == bookId)
  {
    seq(|reviews|, k requires 0 <= k < |reviews| => CascadeReview(reviews[k], bookId))
  }

  /** After the cascade no review of the book is live, and every review of any other book is as it was. */
  lemma CascadeRetiresExactlyTheBook(reviews: seq<Review>, bookId: Id)
    ensures LiveReviews(Cascade(reviews, bookId), bookId) == []
    ensures forall other :: other != bookId ==> LiveReviews(Cascade(reviews, bookId), other) == LiveReviews(reviews, other)
  {
    var rs := Cascade(reviews, bookId);
    forall other | other != bookId
      ensures LiveReviews(rs, other) == LiveReviews(reviews, other)
    {
      CascadeOthers(reviews, bookId, other);
    }
    if LiveReviews(rs, bookId) != [] {
      LiveReviewsExactly(rs, bookId);
      assert LiveReviews(rs, bookId)[0] in LiveReviews(rs, bookId);
    }
  }

  lemma {:induction false} CascadeOthers(reviews: seq<Review>, bookId: Id, other: Id)
    requires other != bookId
    ensures LiveReviews(Cascade(reviews, bookId), other) == LiveReviews(reviews, other)
  {
    if |reviews| > 0 {
      var n := |reviews| - 1;
      CascadeOthers(reviews[..n], bookId, other);
      assert Cascade(reviews, bookId)[..n] == Cascade(reviews[..n], bookId);
    }
  }

  /** Once a book is soft-deleted, deleting it again answers 404 "already deleted". */
  lemma SecondDeleteRejected(books: seq<Book>, bookId: string, now: int)
    requires BooksDistinct(books) && DeleteBookRejection(books, bookId).None?
    ensures var i := FindLiveBook(books, bookId).value;
      DeleteBookRejection(books[i := books[i].(isDeleted := true, deletedAt := Some(now))], bookId)
        == Some(Rejection(NotFound, NoSuchBook))
  {
    var i := FindLiveBook(books, bookId).value;
    var bs := books[i := books[i].(isDeleted := true, deletedAt := Some(now))];
    forall k | 0 <= k < |bs| ensures !IsLiveBook(bs[k], bookId) {
      if k != i {
        assert books[k].id != books[i].id;
      }
    }
  }

  // ---------------------------------------------------------------------------
  // reviewBook

  predicate RatingInRange(rating: Option<int>) {
    GivenNum(rating) && 1 <= rating.value <= 5
  }

  function ReviewRejection(books: seq<Book>, bookId: string, req: ReviewFields): Option<Rejection> {
    if bookId == "" then Some(Rejection(BadRequest, MissingField))
    else if !IsValidId(bookId) then Some(Rejection(BadRequest, InvalidId))
    else if FindLiveBook(books, bookId).None? then Some(Rejection(NotFound, NoSuchBook))
    else if !RatingInRange(req.rating) then Some(Rejection(BadRequest, InvalidRating))
    else if !IsValidField(req.review) then Some(Rejection(BadRequest, InvalidField))
    else None
  }

  /** The review `create(data)` stores: the body with the path's bookId, not deleted; reviewedAt is the write time `now`, which the handler leaves to the schema's default. */
  function NewReview(bookId: Id, req: ReviewFields, id: Id, now: int): Review
    requires req.rating.Some? && req.review.Some?
  {
    Review(id, bookId, req.reviewedBy, now, req.rating.value, req.review.value, false)
  }

  /** For a live book and a non-blank review, the review is accepted exactly when the rating is 1 to 5: 0 and 6 fail, 1 and 5 pass. */
  lemma RatingDecides(books: seq<Book>, bookId: string, req: ReviewFields)
    requires IsValidId(bookId) && FindLiveBook(books, bookId).Some? && IsValidField(req.review)
    ensures ReviewRejection(books, bookId, req).None? <==> req.rating.Some? && 1 <= req.rating.value <= 5
    ensures ReviewRejection(books, bookId, req.(rating := Some(0))).Some?
    ensures ReviewRejection(books, bookId, req.(rating := Some(6))).Some?
    ensures ReviewRejection(books, bookId, req.(rating := Some(1))).None?
    ensures ReviewRejection(books, bookId, req.(rating := Some(5))).None?
  {
    assert bookId != "";
  }

  // ---------------------------------------------------------------------------
  // updateBookReview and deleteReviewById

  /** The checks both review handlers run first, in this order: ids, live book, live review, review belongs to the book. */
  function ReviewAccess(books: seq<Book>, reviews: seq<Review>, bookId: string, reviewId: string): Option<Rejection> {
    if !IsValidId(bookId) || !IsValidId(reviewId) then Some(Rejection(BadRequest, InvalidId))
    else if FindLiveBook(books, bookId).None? then Some(Rejection(NotFound, NoSuchBook))
    else if FindLiveReview(reviews, reviewId).None? then Some(Rejection(NotFound, NoSuchReview))
    else if reviews[FindLiveReview(reviews, reviewId).value].bookId != bookId then Some(Rejection(BadRequest, NotRelevant))
    else None
  }

  /** None of reviewedBy, review, rating is truthy. */
  predicate NothingToEdit(patch: ReviewFields) {
    !Given(patch.reviewedBy) && !Given(patch.review) && !GivenNum(patch.rating)
  }

  /** `req.params` of the route `/books/:bookId/review/:reviewId`: its two named segments. */
  function ReviewRouteParams(): JsValue {
    Obj(["bookId", "reviewId"])
  }

  /** updateBookReview's checks in order: the route parameters are not empty, then access, then the patch. */
  function ReviewEditRejection(books: seq<Book>, reviews: seq<Review>, bookId: string, reviewId: string,
                               patch: ReviewFields): Option<Rejection>
  {
    if !IsValidRequestBody(ReviewRouteParams()) then Some(Rejection(BadRequest, EmptyBody))
    else if ReviewAccess(books, reviews, bookId, reviewId).Some? then ReviewAccess(books, reviews, bookId, reviewId)
    else if NothingToEdit(patch) then Some(Rejection(BadRequest, NoFieldToUpdate))
    else if Given(patch.reviewedBy) && !IsValidField(patch.reviewedBy) then Some(Rejection(BadRequest, InvalidField))
    else if Given(patch.review) && !IsValidField(patch.review) then Some(Rejection(BadRequest, InvalidField))
    else if GivenNum(patch.rating) && !RatingInRange(patch.rating) then Some(Rejection(BadRequest, InvalidRating))
    else None
  }

  /** `updateData`: the truthy fields replace the stored ones and reviewedAt is always refreshed. */
  function Edited(r: Review, patch: ReviewFields, now: int): Review {
    r.(reviewedBy := if Given(patch.reviewedBy) then patch.reviewedBy else r.reviewedBy,
       review := if Given(patch.review) then patch.review.value else r.review,
       rating := if GivenNum(patch.rating) then patch.rating.value else r.rating,
       reviewedAt := now)
  }

  /** The emptiness check of updateBookReview looks at the route parameters, which always hold two keys, so no update is ever refused by it. */
  lemma ParamsCheckNeverFires(books: seq<Book>, reviews: seq<Review>, bookId: string, reviewId: string, patch: ReviewFields)
    ensures ReviewEditRejection(books, reviews, bookId, reviewId, patch) != Some(Rejection(BadRequest, EmptyBody))
  {
  }

  /** A review addressed through a live book it does not belong to is rejected as not relevant, whatever the update or delete asks. */
  lemma ForeignBookRejected(books: seq<Book>, reviews: seq<Review>, bookId: string, j: nat)
    requires ReviewIdsDistinct(reviews) && j < |reviews| && !reviews[j].isDeleted
    requires IsValidId(bookId) && IsValidId(reviews[j].id) && FindLiveBook(books, bookId).Some?
    requires reviews[j].bookId != bookId
    ensures ReviewAccess(books, reviews, bookId, reviews[j].id) == Some(Rejection(BadRequest, NotRelevant))
  {
  }

  /** Access succeeds only for a live review of a live book, reached through its own book id. */
  lemma AccessMeansOwnBook(books: seq<Book>, reviews: seq<Review>, bookId: string, reviewId: string)
    requires ReviewAccess(books, reviews, bookId, reviewId).None?
    ensures var j := FindLiveReview(reviews, reviewId).value;
      reviews[j].id == reviewId && !reviews[j].isDeleted && reviews[j].bookId == bookId
    ensures var i := FindLiveBook(books, bookId).value;
      books[i].id == bookId && !books[i].isDeleted
  {
  }

  /** Deleting the same review twice: the second attempt finds no live review and answers 404. */
  lemma RepeatReviewDeleteRejected(books: seq<Book>, reviews: seq<Review>, bookId: string, reviewId: string, books': seq<Book>)
    requires ReviewIdsDistinct(reviews) && ReviewAccess(books, reviews, bookId, reviewId).None?
    requires FindLiveBook(books', bookId).Some?
    ensures var j := FindLiveReview(reviews, reviewId).value;
      ReviewAccess(books', reviews[j := reviews[j].(isDeleted := true)], bookId, reviewId)
        == Some(Rejection(NotFound, NoSuchReview))
  {
    var j := FindLiveReview(reviews, reviewId).value;
    var rs := reviews[j := reviews[j].(isDeleted := true)];
    forall k | 0 <= k < |rs| ensures !IsLiveReview(rs[k], reviewId) {
      if k != j {
        assert reviews[k].id != reviews[j].id;
      }
    }
  }
}
