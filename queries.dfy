/**
 * The read-only handlers: the book list (filter and sort by title), the book
 * detail (book plus its live reviews, counted at read time) and the lookup
 * part of login. Each is a function of the stored collections.
 */
module Queries {
  import opened Wrappers
  import opened Js
  import opened Validation
  import opened Records

  // ---------------------------------------------------------------------------
  // Ordering by title: code-point (binary) string order, as the store sorts strings

  predicate TitleLe(a: string, b: string)
    decreases |a|
  {
    |a| == 0 || (|b| > 0 && (a[0] < b[0] || (a[0] == b[0] && TitleLe(a[1..], b[1..]))))
  }

  /** Any two titles are ordered one way or the other. */
  lemma {:induction false} TitleLeTotal(a: string, b: string)
    ensures TitleLe(a, b) || TitleLe(b, a)
    decreases |a|
  {
    if |a| > 0 && |b| > 0 && a[0] == b[0] {
      TitleLeTotal(a[1..], b[1..]);
    }
  }

  predicate SortedByTitle(s: seq<Book>) {
    forall i :: 0 <= i < |s| - 1 ==> TitleLe(s[i].title, s[i + 1].title)
  }

  function InsertByTitle(b: Book, s: seq<Book>): (r: seq<Book>)
    requires SortedByTitle(s)
    ensures SortedByTitle(r) && multiset(r) == multiset(s) + multiset{b}
    ensures |r| == |s| + 1 && (r[0] == b || (|s| > 0 && r[0] == s[0]))
  {
    if |s| == 0 then [b]
    else if TitleLe(b.title, s[0].title) then [b] + s
    else
      TitleLeTotal(b.title, s[0].title);
      var rest := InsertByTitle(b, s[1..]);
      assert s == [s[0]] + s[1..];
      [s[0]] + rest
  }

  /** Insertion sort by title: a title-ordered permutation of the input. */
  function SortByTitle(s: seq<Book>): (r: seq<Book>)
    ensures SortedByTitle(r) && multiset(r) == multiset(s)
  {
    if |s| == 0 then []
    else
      assert s == [s[0]] + s[1..];
      InsertByTitle(s[0], SortByTitle(s[1..]))
  }

  // ---------------------------------------------------------------------------
  // getBooks

  /** `find({...query, isDeleted: false})`: live, and equal on every key the query carries. */
  predicate MatchesQuery(b: Book, q: BookQuery) {
    && !b.isDeleted
    && (q.userId.Some? ==> b.userId == q.userId)
    && (q.category.Some? ==> b.category == q.category.value)
    && (q.subcategory.Some? ==> b.subcategory == q.subcategory.value)
  }

  /** The matching books, in store order. */
  function SelectBooks(books: seq<Book>, q: BookQuery): (r: seq<Book>)
    ensures forall b :: b in r <==> b in books && MatchesQuery(b, q)
  {
    if |books| == 0 then []
    else (if MatchesQuery(books[0], q) then [books[0]] else []) + SelectBooks(books[1..], q)
  }

  /** `findById` on users. */
  predicate HasUser(users: seq<User>, id: Id) {
    exists k :: 0 <= k < |users| && users[k].id == id
  }

  /** The book list: a truthy userId must be a valid id of a stored user; an empty result is reported as 404. */
  function GetBooks(users: seq<User>, books: seq<Book>, q: BookQuery): (r: Reply<seq<Book>>)
    ensures !r.Created?
    ensures r.Ok? ==> |r.value| > 0 && SortedByTitle(r.value)
    ensures r.Ok? ==> forall b :: b in r.value <==> b in books && MatchesQuery(b, q)
    ensures r.Ok? ==> multiset(r.value) == multiset(SelectBooks(books, q))
    ensures r.Fail? ==> r.status == NotFound
    ensures Given(q.userId) && !IsValidId(q.userId.value) ==> r == Fail(NotFound, InvalidId)
    ensures Given(q.userId) && IsValidId(q.userId.value) && !HasUser(users, q.userId.value)
      ==> r == Fail(NotFound, NoSuchUser)
    ensures r.Fail? && r.reason != InvalidId && r.reason != NoSuchUser
      ==> r.reason == NoData && forall k :: 0 <= k < |books| ==> !MatchesQuery(books[k], q)
    ensures ((!Given(q.userId) || (IsValidId(q.userId.value) && HasUser(users, q.userId.value)))
      && (exists k :: 0 <= k < |books| && MatchesQuery(books[k], q))) ==> r.Ok?
  {
    if Given(q.userId) && !IsValidId(q.userId.value) then Fail(NotFound, InvalidId)
    else if Given(q.userId) && !HasUser(users, q.userId.value) then Fail(NotFound, NoSuchUser)
    else
      var selected := SelectBooks(books, q);
      var list := SortByTitle(selected);
      assert forall b :: b in list <==> b in selected by {
        forall b ensures b in list <==> b in selected {
          assert b in list <==> b in multiset(list);
          assert b in selected <==> b in multiset(selected);
        }
      }
      if |list| == 0 then
        assert forall k :: 0 <= k < |books| ==> books[k] !in multiset(list);
        Fail(NotFound, NoData)
      else Ok(list)
  }

  // ---------------------------------------------------------------------------
  // getBookById

  /** The book record, its live reviews, and `reviews`: their number at read time, overriding the stored counter. */
  datatype BookDetail = BookDetail(book: Book, reviewsData: seq<Review>, reviews: nat)

  function GetBookById(books: seq<Book>, reviews: seq<Review>, bookId: string): (r: Reply<BookDetail>)
    ensures !r.Created?
    ensures !IsValidId(bookId) ==> r == Fail(BadRequest, InvalidId)
    ensures IsValidId(bookId) && (forall k :: 0 <= k < |books| ==> !IsLiveBook(books[k], bookId))
      ==> r == Fail(NotFound, NoSuchBook)
    ensures IsValidId(bookId) && (exists k :: 0 <= k < |books| && IsLiveBook(books[k], bookId)) ==> r.Ok?
    ensures r.Ok? ==> r.value.book in books && IsLiveBook(r.value.book, bookId)
    ensures r.Ok? ==> r.value.reviews == |r.value.reviewsData|
    ensures r.Ok? ==> forall rv :: rv in r.value.reviewsData <==> rv in reviews && IsLiveReviewOf(rv, bookId)
    ensures r.Ok? ==> r.value.reviewsData == LiveReviews(reviews, bookId)
    ensures r.Ok? ==> r.value.reviews == |LiveIndices(reviews, bookId)|
  {
    if !IsValidId(bookId) then Fail(BadRequest, InvalidId)
    else match FindLiveBook(books, bookId)
      case None => Fail(NotFound, NoSuchBook)
      case Some(i) =>
        var live := LiveReviews(reviews, bookId);
        LiveReviewsExactly(reviews, bookId);
        LiveReviewsCount(reviews, bookId);
        Ok(BookDetail(books[i], live, |live|))
  }

  /** In a consistent store the count the detail view computes equals the book's stored counter. */
  lemma DetailCountMatchesCounter(users: seq<User>, books: seq<Book>, reviews: seq<Review>, bookId: string)
    requires Consistent(users, books, reviews)
    requires GetBookById(books, reviews, bookId).Ok?
    ensures GetBookById(books, reviews, bookId).value.reviews == GetBookById(books, reviews, bookId).value.book.reviews
  {
    var i := FindLiveBook(books, bookId).value;
    assert GetBookById(books, reviews, bookId).value.book == books[i];
  }

  // ---------------------------------------------------------------------------
  // loginUser, up to "a matching user was found"

  predicate HasCredentials(u: User, email: string, password: string) {
    u.email == email && u.password == password
  }

  /** `findOne({email, password})` on users. */
  function FindUser(users: seq<User>, email: string, password: string): (r: Option<nat>)
    ensures r.Some? ==> r.value < |users| && HasCredentials(users[r.value], email, password)
    ensures r.None? ==> forall k :: 0 <= k < |users| ==> !HasCredentials(users[k], email, password)
  {
    FindFirst(users, (u: User) => HasCredentials(u, email, password))
  }

  /** The user id a token would be issued for, or why none is. */
  function Login(users: seq<User>, req: LoginRequest): (r: Reply<Id>)
    ensures !r.Created?
    ensures !IsValidRequestBody(req.Body()) ==> r == Fail(BadRequest, EmptyBody)
    ensures IsValidRequestBody(req.Body()) && !(IsValidField(req.email) && IsValidField(req.password))
      ==> r == Fail(BadRequest, InvalidField)
    ensures r.Ok? <==> (IsValidRequestBody(req.Body()) && IsValidField(req.email) && IsValidField(req.password)
      && exists k :: 0 <= k < |users| && HasCredentials(users[k], req.email.value, req.password.value))
    ensures r.Ok? ==> exists k ::
      0 <= k < |users| && users[k].id == r.value && HasCredentials(users[k], req.email.value, req.password.value)
    ensures r.Fail? && r.status != BadRequest ==> r == Fail(NotFound, NoSuchUser)
  {
    if !IsValidRequestBody(req.Body()) then Fail(BadRequest, EmptyBody)
    else if !IsValidField(req.email) || !IsValidField(req.password) then Fail(BadRequest, InvalidField)
    else match FindUser(users, req.email.value, req.password.value)
      case None => Fail(NotFound, NoSuchUser)
      case Some(k) => Ok(users[k].id)
  }
}
