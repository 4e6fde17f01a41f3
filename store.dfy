/**
 * The three collections and the handlers that write to them. Each handler
 * runs its guard chain in the source's order, returns the first rejection
 * unchanged, and otherwise performs its write; its contract ties the reply
 * and the new collections to the rule functions of module Rules, and every
 * handler keeps the store consistent (module Records).
 */
module BookStore {
  import opened Wrappers
  import opened Js
  import opened Validation
  import opened Dates
  import opened Records
  import opened Queries
  import opened Rules

  class Store {
    var users: seq<User>
    var books: seq<Book>
    var reviews: seq<Review>

    ghost predicate Valid()
      reads this
    {
      Consistent(users, books, reviews)
    }

    constructor ()
      ensures Valid()
      ensures users == [] && books == [] && reviews == []
    {
      users := [];
      books := [];
      reviews := [];
    }

    /** createUser: `newId` is the id the store assigns. */
    method CreateUser(req: UserRequest, newId: Id) returns (r: Reply<User>)
      requires forall k :: 0 <= k < |users| ==> users[k].id != newId
      modifies this
      ensures UserRejection(old(users), req).Some? ==>
        r == Fail(BadRequest, UserRejection(old(users), req).value) && users == old(users)
      ensures UserRejection(old(users), req).None? ==>
        r == Created(NewUser(req, newId)) && users == old(users) + [NewUser(req, newId)]
      ensures books == old(books) && reviews == old(reviews)
      ensures old(Valid()) ==> Valid()
    {
      if !IsValidRequestBody(req.Body()) {
        return Fail(BadRequest, EmptyBody);
      }
      if !Given(req.title) || !Given(req.name) || !Given(req.phone) || !Given(req.email) || !Given(req.password) {
        return Fail(BadRequest, MissingField);
      }
      if !IsValidField(req.title) || !IsValidField(req.name) || !IsValidField(req.phone)
        || !IsValidField(req.email) || !IsValidField(req.password)
      {
        return Fail(BadRequest, InvalidField);
      }
      var title, phone, email := req.title.value, req.phone.value, req.email.value;
      if !IsValidString(title) || !IsValidString(req.name.value) {
        return Fail(BadRequest, InvalidName);
      }
      if !(title == "Mr" || title == "Mrs" || title == "Miss") {
        return Fail(BadRequest, InvalidTitle);
      }
      if !IsValidMobile(phone) {
        return Fail(BadRequest, InvalidPhone);
      }
      if !IsValidEmail(email) {
        return Fail(BadRequest, InvalidEmail);
      }
      if PhoneOrEmailTaken(users, phone, email) {
        return Fail(BadRequest, Duplicate);
      }
      if !IsValidPassword(req.password.value) {
        return Fail(BadRequest, InvalidPassword);
      }
      match req.address {
        case NotAnObject =>
          return Fail(BadRequest, InvalidAddress);
        case AddressObject(street, city, pincode) =>
          if !IsValidField(street) || !IsValidField(city) || !IsValidField(pincode) {
            return Fail(BadRequest, InvalidAddress);
          }
          if !IsValidPlace(street.value) || !IsValidPlace(city.value) || !IsValidPincode(pincode.value) {
            return Fail(BadRequest, InvalidAddress);
          }
        case _ =>
      }
      var u := NewUser(req, newId);
      if Consistent(users, books, reviews) {
        UserAddedKeepsConsistent(users, books, reviews, u);
      }
      users := users + [u];
      return Created(u);
    }

    /** createBook: `newId` is the id the store assigns. */
    method CreateBook(req: BookRequest, newId: Id) returns (r: Reply<Book>)
      requires FindBook(books, newId).None?
      modifies this
      ensures BookRejection(old(books), req).Some? ==>
        r == Fail(BadRequest, BookRejection(old(books), req).value) && books == old(books)
      ensures BookRejection(old(books), req).None? ==>
        r == Created(NewBook(req, newId)) && books == old(books) + [NewBook(req, newId)]
      ensures users == old(users) && reviews == old(reviews)
      ensures old(Valid()) ==> Valid()
    {
      ghost var rej := BookRejection(books, req);
      if !IsValidField(req.title) || !IsValidField(req.excerpt) || !IsValidField(req.isbn)
        || !IsValidField(req.subcategory) || !IsValidField(req.category) || !IsValidField(req.releasedAt)
      {
        assert rej == Some(InvalidField);
        return Fail(BadRequest, InvalidField);
      }
      var title, isbn, releasedAt := req.title.value, req.isbn.value, req.releasedAt.value;
      if !IsValidRequestBody(Str(title)) || !IsValidRequestBody(Str(req.excerpt.value)) || !IsValidRequestBody(Str(isbn))
        || !IsValidRequestBody(Str(req.subcategory.value)) || !IsValidRequestBody(Str(req.category.value))
        || !IsValidRequestBody(Str(releasedAt))
      {
        return Fail(BadRequest, InvalidField);
      }
      if !IsValidISBN(isbn) {
        assert rej == Some(InvalidIsbn);
        return Fail(BadRequest, InvalidIsbn);
      }
      if TitleOrIsbnTaken(books, title, isbn) {
        assert rej == Some(Duplicate);
        return Fail(BadRequest, Duplicate);
      }
      var trimmed := Trim(releasedAt);
      if !PassesDateCheck(trimmed) {
        assert rej == Some(InvalidDate);
        return Fail(BadRequest, InvalidDate);
      }
      assert rej == None;
      var b := NewBook(req, newId);
      if Consistent(users, books, reviews) {
        BookAddedKeepsConsistent(users, books, reviews, b);
      }
      books := books + [b];
      return Created(b);
    }

    /** updateBooks: the patched book is returned as stored after the write. */
    method UpdateBook(bookId: string, patch: BookPatch) returns (r: Reply<Book>)
      modifies this
      ensures UpdateRejection(old(books), bookId, patch).Some? ==>
        r == Refusal(UpdateRejection(old(books), bookId, patch).value) && books == old(books)
      ensures UpdateRejection(old(books), bookId, patch).None? ==>
        var i := FindLiveBook(old(books), bookId).value;
        r == Ok(Patched(old(books)[i], patch)) && books == old(books)[i := Patched(old(books)[i], patch)]
      ensures users == old(users) && reviews == old(reviews)
      ensures old(Valid()) ==> Valid()
    {
      if !IsValidRequestBody(patch.Body()) {
        return Fail(BadRequest, EmptyBody);
      }
      if !Given(patch.title) && !Given(patch.excerpt) && !Given(patch.isbn) && !Given(patch.releasedAt) {
        return Fail(BadRequest, NoFieldToUpdate);
      }
      if Given(patch.title) {
        if !IsValidField(patch.title) {
          return Fail(BadRequest, InvalidTitle);
        }
        if TitleTaken(books, patch.title.value) {
          return Fail(BadRequest, Duplicate);
        }
      }
      if Given(patch.excerpt) && !IsValidField(patch.excerpt) {
        return Fail(BadRequest, InvalidField);
      }
      if Given(patch.isbn) {
        if !IsValidField(patch.isbn) {
          return Fail(BadRequest, InvalidIsbn);
        }
        // calling the undefined `validateISBN` throws
        return Fail(ServerError, UndefinedFunction);
      }
      if Given(patch.releasedAt) {
        if !IsValidField(patch.releasedAt) {
          return Fail(BadRequest, InvalidField);
        }
        if !PassesDateCheck(patch.releasedAt.value) {
          return Fail(BadRequest, InvalidDate);
        }
      }
      if !IsValidId(bookId) {
        return Fail(ServerError, CastFailure);
      }
      var found := FindLiveBook(books, bookId);
      if found.None? {
        return Fail(NotFound, NoSuchBook);
      }
      var i := found.value;
      var b := Patched(books[i], patch);
      if Consistent(users, books, reviews) {
        BookEditedKeepsConsistent(users, books, reviews, i, b);
      }
      books := books[i := b];
      return Ok(b);
    }

    /** deleteBookById: soft-deletes the book at time `now`, then every live review of it. */
    method DeleteBook(bookId: string, now: int) returns (r: Reply<()>)
      modifies this
      ensures DeleteBookRejection(old(books), bookId).Some? ==>
        r == Refusal(DeleteBookRejection(old(books), bookId).value) && books == old(books) && reviews == old(reviews)
      ensures DeleteBookRejection(old(books), bookId).None? ==>
        var i := FindLiveBook(old(books), bookId).value;
        && r == Ok(())
        && books == old(books)[i := old(books)[i].(isDeleted := true, deletedAt := Some(now))]
        && reviews == Cascade(old(reviews), bookId)
      ensures users == old(users)
      ensures old(Valid()) ==> Valid()
    {
      if !IsValidId(bookId) {
        return Fail(ServerError, CastFailure);
      }
      var found := FindLiveBook(books, bookId);
      if found.None? {
        return Fail(NotFound, NoSuchBook);
      }
      var i := found.value;
      if Consistent(users, books, reviews) {
        BookDeletedKeepsConsistent(users, books, reviews, i, now, Cascade(reviews, bookId));
      }
      books := books[i := books[i].(isDeleted := true, deletedAt := Some(now))];
      RetireReviewsOf(bookId);
      return Ok(());
    }

    /** `updateMany({bookId, isDeleted: false}, {isDeleted: true})`: retires the live reviews of the book one at a time. */
    method RetireReviewsOf(bookId: Id)
      modifies this
      ensures reviews == Cascade(old(reviews), bookId)
      ensures users == old(users) && books == old(books)
    {
      var k := 0;
      while k < |reviews|
        invariant 0 <= k <= |reviews| && |reviews| == |old(reviews)|
        invariant forall m :: 0 <= m < k ==> reviews[m] == CascadeReview(old(reviews)[m], bookId)
        invariant forall m :: k <= m < |reviews| ==> reviews[m] == old(reviews)[m]
        invariant users == old(users) && books == old(books)
      {
        if reviews[k].bookId == bookId && !reviews[k].isDeleted {
          reviews := reviews[k := reviews[k].(isDeleted := true)];
        }
        k := k + 1;
      }
    }

    /** reviewBook: `newId` is the id the store assigns, `now` the time of the request. */
    method CreateReview(bookId: string, req: ReviewFields, newId: Id, now: int) returns (r: Reply<Review>)
      requires forall k :: 0 <= k < |reviews| ==> reviews[k].id != newId
      modifies this
      ensures ReviewRejection(old(books), bookId, req).Some? ==>
        r == Refusal(ReviewRejection(old(books), bookId, req).value) && books == old(books) && reviews == old(reviews)
      ensures ReviewRejection(old(books), bookId, req).None? ==>
        && r == Created(NewReview(bookId, req, newId, now))
        && reviews == old(reviews) + [NewReview(bookId, req, newId, now)]
        && books == Bump(old(books), bookId, 1)
      ensures users == old(users)
      ensures old(Valid()) ==> Valid()
    {
      if bookId == "" {
        return Fail(BadRequest, MissingField);
      }
      if !IsValidId(bookId) {
        return Fail(BadRequest, InvalidId);
      }
      var found := FindLiveBook(books, bookId);
      if found.None? {
        return Fail(NotFound, NoSuchBook);
      }
      if !GivenNum(req.rating) || !(req.rating.value <= 5 && req.rating.value >= 1) {
        return Fail(BadRequest, InvalidRating);
      }
      if !IsValidField(req.review) {
        return Fail(BadRequest, InvalidField);
      }
      var rv := NewReview(bookId, req, newId, now);
      if Consistent(users, books, reviews) {
        ReviewAddedKeepsConsistent(users, books, reviews, found.value, rv);
      }
      reviews := reviews + [rv];
      books := Bump(books, bookId, 1);
      return Created(rv);
    }

    /** The checks updateBookReview and deleteReviewById share; on success, the positions of the book and the review. */
    method Locate(bookId: string, reviewId: string) returns (r: Reply<(nat, nat)>)
      ensures ReviewAccess(books, reviews, bookId, reviewId).Some? ==>
        r == Refusal(ReviewAccess(books, reviews, bookId, reviewId).value)
      ensures ReviewAccess(books, reviews, bookId, reviewId).None? ==>
        r == Ok((FindLiveBook(books, bookId).value, FindLiveReview(reviews, reviewId).value))
    {
      if !IsValidId(bookId) || !IsValidId(reviewId) {
        return Fail(BadRequest, InvalidId);
      }
      var book := FindLiveBook(books, bookId);
      if book.None? {
        return Fail(NotFound, NoSuchBook);
      }
      var review := FindLiveReview(reviews, reviewId);
      if review.None? {
        return Fail(NotFound, NoSuchReview);
      }
      if reviews[review.value].bookId != bookId {
        return Fail(BadRequest, NotRelevant);
      }
      return Ok((book.value, review.value));
    }

    /** updateBookReview: the edited review is returned as stored after the write. */
    method UpdateReview(bookId: string, reviewId: string, patch: ReviewFields, now: int) returns (r: Reply<Review>)
      modifies this
      ensures ReviewEditRejection(old(books), old(reviews), bookId, reviewId, patch).Some? ==>
        r == Refusal(ReviewEditRejection(old(books), old(reviews), bookId, reviewId, patch).value)
        && reviews == old(reviews)
      ensures ReviewEditRejection(old(books), old(reviews), bookId, reviewId, patch).None? ==>
        var j := FindLiveReview(old(reviews), reviewId).value;
        r == Ok(Edited(old(reviews)[j], patch, now)) && reviews == old(reviews)[j := Edited(old(reviews)[j], patch, now)]
      ensures users == old(users) && books == old(books)
      ensures old(Valid()) ==> Valid()
    {
      if !IsValidRequestBody(ReviewRouteParams()) {
        return Fail(BadRequest, EmptyBody);
      }
      var at := Locate(bookId, reviewId);
      if at.Fail? {
        return Fail(at.status, at.reason);
      }
      if !Given(patch.reviewedBy) && !Given(patch.review) && !GivenNum(patch.rating) {
        return Fail(BadRequest, NoFieldToUpdate);
      }
      if Given(patch.reviewedBy) && !IsValidField(patch.reviewedBy) {
        return Fail(BadRequest, InvalidField);
      }
      if Given(patch.review) && !IsValidField(patch.review) {
        return Fail(BadRequest, InvalidField);
      }
      if GivenNum(patch.rating) && !(patch.rating.value <= 5 && patch.rating.value >= 1) {
        return Fail(BadRequest, InvalidRating);
      }
      var j := at.value.1;
      var edited := Edited(reviews[j], patch, now);
      if Consistent(users, books, reviews) {
        ReviewEditedKeepsConsistent(users, books, reviews, j, edited);
      }
      reviews := reviews[j := edited];
      return Ok(edited);
    }

    /** deleteReviewById: soft-deletes the review and decrements its book's counter. */
    method DeleteReview(bookId: string, reviewId: string) returns (r: Reply<()>)
      modifies this
      ensures ReviewAccess(old(books), old(reviews), bookId, reviewId).Some? ==>
        r == Refusal(ReviewAccess(old(books), old(reviews), bookId, reviewId).value)
        && books == old(books) && reviews == old(reviews)
      ensures ReviewAccess(old(books), old(reviews), bookId, reviewId).None? ==>
        var j := FindLiveReview(old(reviews), reviewId).value;
        && r == Ok(())
        && reviews == old(reviews)[j := old(reviews)[j].(isDeleted := true)]
        && books == Bump(old(books), bookId, -1)
      ensures users == old(users)
      ensures old(Valid()) ==> Valid()
    {
      var at := Locate(bookId, reviewId);
      if at.Fail? {
        return Fail(at.status, at.reason);
      }
      var (i, j) := at.value;
      if Consistent(users, books, reviews) {
        ReviewDeletedKeepsConsistent(users, books, reviews, i, j);
      }
      reviews := reviews[j := reviews[j].(isDeleted := true)];
      books := Bump(books, bookId, -1);
      return Ok(());
    }
  }

  /** A fresh store holding the one book that `req` creates. */
  method StoreWithBook(req: BookRequest, bookId: Id) returns (s: Store)
    requires BookRejection([], req).None?
    ensures fresh(s)
    ensures s.users == [] && s.books == [NewBook(req, bookId)] && s.reviews == []
  {
    s := new Store();
    var created := s.CreateBook(req, bookId);
  }

  /** A fresh store holding the book `req` creates and the review `first` adds to it. */
  method StoreWithReview(req: BookRequest, bookId: Id, first: ReviewFields, firstId: Id, now: int)
    returns (s: Store)
    requires BookRejection([], req).None? && IsValidId(bookId)
    requires RatingInRange(first.rating) && IsValidField(first.review)
    ensures fresh(s)
    ensures |s.books| == 1 && IsLiveBook(s.books[0], bookId) && s.books[0].reviews == 1
    ensures s.reviews == [NewReview(bookId, first, firstId, now)]
  {
    s := StoreWithBook(req, bookId);
    assert FindLiveBook(s.books, bookId) == Some(0) && FindBook(s.books, bookId) == Some(0);
    var created := s.CreateReview(bookId, first, firstId, now);
  }

  /** A fresh store holding the book `req` creates and the two reviews `first` and `second` add to it, in that order. */
  method StoreWithTwoReviews(req: BookRequest, bookId: Id, first: ReviewFields, second: ReviewFields,
                             firstId: Id, secondId: Id, now: int)
    returns (s: Store)
    requires BookRejection([], req).None? && IsValidId(bookId) && firstId != secondId
    requires RatingInRange(first.rating) && IsValidField(first.review)
    requires RatingInRange(second.rating) && IsValidField(second.review)
    ensures fresh(s)
    ensures |s.books| == 1 && IsLiveBook(s.books[0], bookId) && s.books[0].reviews == 2
    ensures s.reviews == [NewReview(bookId, first, firstId, now), NewReview(bookId, second, secondId, now)]
  {
    s := StoreWithReview(req, bookId, first, firstId, now);
    assert FindLiveBook(s.books, bookId) == Some(0) && FindBook(s.books, bookId) == Some(0);
    var created := s.CreateReview(bookId, second, secondId, now);
  }

  /**
   * A client of a fresh store: create a book, review it twice, delete the first
   * review. The detail view then lists only the second review, and both the
   * count it computes and the book's stored counter are one.
   */
  method ReviewCounterRun(req: BookRequest, bookId: Id, first: ReviewFields, second: ReviewFields,
                          firstId: Id, secondId: Id, now: int)
    returns (detail: Reply<BookDetail>)
    requires BookRejection([], req).None? && IsValidId(bookId)
    requires IsValidId(firstId) && IsValidId(secondId) && firstId != secondId
    requires RatingInRange(first.rating) && IsValidField(first.review)
    requires RatingInRange(second.rating) && IsValidField(second.review)
    ensures detail.Ok? && detail.value.reviews == 1 && detail.value.book.reviews == 1
    ensures detail.value.reviewsData == [NewReview(bookId, second, secondId, now)]
  {
    var s := StoreWithTwoReviews(req, bookId, first, second, firstId, secondId, now);
    var r1, r2 := NewReview(bookId, first, firstId, now), NewReview(bookId, second, secondId, now);
    assert FindLiveBook(s.books, bookId) == Some(0) && FindBook(s.books, bookId) == Some(0);
    assert FindLiveReview(s.reviews, firstId) == Some(0);
    var d := s.DeleteReview(bookId, firstId);
    assert |s.books| == 1 && IsLiveBook(s.books[0], bookId) && s.books[0].reviews == 1;
    assert s.reviews == [r1.(isDeleted := true), r2];
    DetailAfterFirstRetired(s.books, bookId, r1, r2);
    detail := GetBookById(s.books, s.reviews, bookId);
  }

  /** The detail view of one live book with two reviews, the first retired: only the second is listed and counted. */
  lemma DetailAfterFirstRetired(books: seq<Book>, bookId: Id, r1: Review, r2: Review)
    requires IsValidId(bookId) && |books| == 1 && IsLiveBook(books[0], bookId)
    requires IsLiveReviewOf(r2, bookId)
    ensures GetBookById(books, [r1.(isDeleted := true), r2], bookId) == Ok(BookDetail(books[0], [r2], 1))
  {
    var rs := [r1.(isDeleted := true), r2];
    assert rs[..1] == [r1.(isDeleted := true)];
    assert LiveReviews(rs, bookId) == [r2];
    assert FindLiveBook(books, bookId) == Some(0);
  }
}
