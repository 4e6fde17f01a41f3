# Book management API: a verified model

The system is an Express/Mongoose REST service with users, books and book
reviews. Users register and log in. Books are created, listed, shown with
their reviews, updated and soft-deleted. Reviews are added, edited and
soft-deleted, and every review write adjusts a `reviews` counter stored on
its book. This project models, in Dafny:

- the request validators of `src/utils/validation.js`;
- the user, book and review controllers, including their guard chains,
  status codes and writes.

It then proves what these handlers promise. Each handler is one atomic step
over three in-memory collections.

Modules, one file each:

- `Wrappers` (wrappers.dfy): `Option`.
- `Js` (js.dfy): the JavaScript values a request field can hold. It also
  covers truthiness, `Object.keys(..).length`, and `String.prototype.trim`
  over the ECMAScript whitespace set.
- `Validation` (validation.dfy): the validators, each regular expression
  written out as a predicate over characters. The single-class patterns
  (`^[C]+$`, `^[C]{n}$`, `^[C]{lo,hi}$`) share one matcher that follows the
  regular expression's structure. Lemmas state, for every input, what each
  validator accepts: the character class and length bounds, the five-digit
  ISBN, and e-mail addresses as exactly the compositions
  local@label(.label)*.tld.
- `ValidationExamples` (validation_examples.dfy): concrete accepted and
  rejected inputs, derived from those characterisations.
- `Dates` (dates.dfy): the `YYYY-MM-DD` check, done with `moment` in the
  code. `moment` renders a date it cannot read as the text `Invalid date`. So
  the check passes for a canonical, zero-padded Gregorian calendar date
  (years 0000-9999) and also for the text `Invalid date` itself. Lemmas prove
  that the passing dates are exactly the images of a formatting function.
- `Records` (records.dfy):
  - the stored records, requests and replies;
  - first-match lookups (`findOne`) and the `$inc` update;
  - the live-review count;
  - the store invariant `Consistent`: ids, titles, ISBNs, phones and e-mails
    are unique; every review's book exists; the reviews of a deleted book are
    deleted; the counter of every live book equals its live reviews;
  - one preservation lemma per kind of write.
- `Queries` (queries.dfy): the read-only handlers `getBooks`, `getBookById`
  and `loginUser`, as functions over the collections.
- `Rules` (rules.dfy): the guard chain of every writing handler, as a
  function that gives the first rejection, plus the record a success writes.
  Lemmas cover ordering, duplicates, repeated deletes and rating bounds.
- `BookStore` (store.dfy): class `Store`, with the three collections as
  fields and one method per writing handler. Every method is proved equal to
  its rule function, and proved to keep `Consistent`. `ReviewCounterRun` is a
  client of the class that runs create-book, review, review, delete-review.

Where the code and its documentation disagree, the model follows the code:

- `isValidISBN` accepts exactly five digits, although its message says 13.
- `isValidPassword` accepts 6-15 letters and digits and no symbols, although
  the message says 8-15 with special characters.
- `updateBooks` calls `validateISBN`, which is never defined. An update that
  carries a truthy ISBN is therefore always rejected without writing. A blank
  ISBN is rejected with 400 by the `isValid` check before the call. Once the
  earlier guards pass, the rejection is the 500 of the failing call.
- The title check in `updateBooks` also matches the book being updated, so
  re-sending a book's own title is a duplicate.
- `getBooks` answers 404, not 400, to a malformed `userId`.
- `createBook` validates the trimmed `releasedAt` but stores the untrimmed
  value. `updateBooks` does not trim at all.
- `updateBooks` and `deleteBookById` do not check the id's syntax. A
  malformed id fails Mongoose's ObjectId cast and is answered with 500.
- The emptiness check of `updateBookReview` looks at the path parameters, so
  it never fires.
- A release date of `Invalid date` (in `createBook` also with blanks around
  it) passes the date check and is stored. This is because the round trip
  through `moment` reproduces that text.

## Model

| member | source | states |
|---|---|---|
| Js.Trim | src/utils/validation.js:3 | `String.prototype.trim`: drops ECMAScript whitespace from both ends of a string and keeps the rest in order |
| Js.TrimEmptyIffBlank | src/utils/validation.js:3 | `trim()` leaves the empty string exactly when every character is ECMAScript whitespace |
| Js.TrimIdempotent | src/utils/validation.js:3 | a trimmed string has no whitespace at either end, and trimming it again changes nothing |
| Js.TrimNoOp | src/controllers/bookController.js:65 | trimming a string with no whitespace at either end returns it unchanged |
| Validation.IsValid | src/utils/validation.js:1-5 | false for undefined and null, false for a string that trims to empty, true for every other value |
| Validation.IsValidRequestBody | src/utils/validation.js:7-9 | true when the value has at least one own enumerable key: a non-empty string (its indices) or an object with keys |
| Validation.IsValidString | src/utils/validation.js:11-13 | the pattern `^[a-zA-Z0-9\s\-\.,']+$` as one or more characters of that class |
| Validation.IsValidEmail | src/utils/validation.js:16-19 | the e-mail pattern: a local part of word characters, `.` and `-` before the first `@`, then labels joined by dots ending in a TLD of two or more letters |
| Validation.IsValidMobile | src/utils/validation.js:21-23 | the pattern `^\d{10}$` as exactly ten digits |
| Validation.IsValidPassword | src/utils/validation.js:25-28 | the pattern `^[a-zA-Z0-9]{6,15}$` as 6 to 15 ASCII letters and digits |
| Validation.IsValidPincode | src/utils/validation.js:30-33 | the pattern `^[1-9][0-9]{5}$`: a non-zero digit followed by exactly five digits |
| Validation.IsValidPlace | src/utils/validation.js:35-38 | the pattern `^[\w\s-]+$` as one or more word characters, whitespace or `-` |
| Validation.IsValidISBN | src/utils/validation.js:40-43 | the pattern `^(?=(?:\D*\d){5}$)\d+$`: the lookahead's digit-group count of 5 together with a non-empty all-digit string |
| Validation.IsValidExactly | src/utils/validation.js:1-5 | `isValid` is false exactly for undefined, null and whitespace-only strings; numbers, booleans and objects are valid |
| Validation.ValidStringHasKeys | src/utils/validation.js:7-9 | a string that passes `isValid` is non-empty, so `isValidRequestBody` (at least one key) also holds for it |
| Validation.FormatImpliesPresent | src/utils/validation.js:1-5 | any string accepted by the mobile, password, pincode, ISBN or e-mail pattern also passes `isValid` |
| Validation.NumberHasNoKeys | src/utils/validation.js:1-9 | a number passes `isValid` but fails `isValidRequestBody`, since it has no own keys |
| Validation.MatchRepeatExactly | src/utils/validation.js:11-38 | the anchored repetition `^[C]{lo,hi}$` (or `+`) of one character class accepts exactly the strings of that class whose length is within the bounds |
| Validation.StringExactly | src/utils/validation.js:11-13 | `isValidString` accepts exactly the non-empty strings of ASCII letters, digits, whitespace, `-`, `.`, `,` and `'` |
| Validation.MobileExactly | src/utils/validation.js:21-23 | `isValidMobile` accepts exactly the strings of ten decimal digits |
| Validation.PasswordExactly | src/utils/validation.js:25-28 | `isValidPassword` accepts exactly the strings of 6 to 15 ASCII letters and digits |
| Validation.PincodeExactly | src/utils/validation.js:30-33 | `isValidPincode` accepts exactly the six-digit strings whose first digit is not 0 |
| Validation.PlaceExactly | src/utils/validation.js:35-38 | `isValidPlace` accepts exactly the non-empty strings of word characters, whitespace and `-` |
| ValidationExamples.PasswordAcceptsBounds | src/utils/validation.js:25-28 | passwords of lengths 6 and 15 are accepted |
| ValidationExamples.PasswordRejectsLengths | src/utils/validation.js:25-28 | passwords of lengths 5 and 16 are rejected |
| ValidationExamples.PasswordRejectsSymbols | src/utils/validation.js:25-28 | a `!` or a space makes a password of allowed length fail |
| ValidationExamples.MobileAcceptsTenDigits | src/utils/validation.js:21-23 | ten digits are accepted as a mobile number |
| ValidationExamples.MobileRejectsOthers | src/utils/validation.js:21-23 | nine digits, eleven digits and a leading `+` are rejected |
| ValidationExamples.PincodeBoundaries | src/utils/validation.js:30-33 | six digits with a non-zero first digit are accepted; "012345" and five or seven digits are rejected |
| ValidationExamples.CharsetChecksAcceptBlank | src/utils/validation.js:11-13 | `isValidString` and `isValidPlace` reject "" but accept whitespace-only input, which `isValid` rejects |
| ValidationExamples.NameAcceptsPunctuation | src/utils/validation.js:11-13 | a name with `'`, `-`, `,`, `.` and spaces is accepted |
| ValidationExamples.NameRejectsUnderscore | src/utils/validation.js:11-13 | a name with `_` is rejected |
| ValidationExamples.PlaceAcceptsUnderscore | src/utils/validation.js:35-38 | a place with `_` and `-` is accepted |
| ValidationExamples.PlaceRejectsApostrophe | src/utils/validation.js:35-38 | "O'Neil" is rejected as a place, where `'` is its only character outside the class, and accepted as a name |
| ValidationExamples.PlaceRejectsDot | src/utils/validation.js:35-38 | a place with `.` is rejected |
| Validation.IsbnIsFiveDigits | src/utils/validation.js:40-43 | the lookahead-plus-digits pattern accepts exactly the strings of five decimal digits |
| Validation.IsbnExamples | src/utils/validation.js:40-43 | "12345" is accepted; four, six and thirteen digits, a letter and "" are rejected |
| Validation.DigitGroupsOfDigits | src/utils/validation.js:41 | on an all-digit string, `(?:\D*\d){k}$` matches exactly when the length is k |
| Validation.EmailFromParts | src/utils/validation.js:16-19 | every local@label(.label)*.tld built from the allowed classes, with a TLD of two or more letters, is accepted |
| Validation.EmailToParts | src/utils/validation.js:16-19 | every accepted address splits back into such a local part, labels and TLD |
| ValidationExamples.EmailRejectsShortTld | src/utils/validation.js:16-19 | an address with a one-letter TLD is rejected |
| ValidationExamples.EmailRejectsEmptyLocal | src/utils/validation.js:16-19 | an address with an empty local part is rejected |
| Dates.FormatIsCanonical | src/controllers/bookController.js:65-73 | every calendar date, written zero-padded, is a canonical date string and reads back as the same year, month and day |
| Dates.CanonicalIsFormatted | src/controllers/bookController.js:65-73 | every canonical date string is the zero-padded rendering of its own year, month and day |
| Dates.PassesDateCheck | src/controllers/bookController.js:67 | the outcome of the `moment(...).format("YYYY-MM-DD") !== value` check: passes for a canonical calendar date or the text `Invalid date` |
| Dates.PassesDateCheckExactly | src/controllers/bookController.js:67 | the round-trip check passes exactly for the renderings of calendar dates and for the text `Invalid date` |
| Dates.PassingDateIsTrimmed | src/controllers/bookController.js:65-67 | a string that passes the date check is unchanged by `trim` |
| Dates.InvalidDateTextPasses | src/controllers/bookController.js:65-67 | `Invalid date` is no calendar date but passes the check, also after trimming blanks around it |
| Dates.ValidDateExamples | src/controllers/bookController.js:67 | 2023-02-28 passes, and so do the leap days of 2024 and 2000 |
| Dates.InvalidDateExamples | src/controllers/bookController.js:67 | 2023-02-29, 1900-02-29, 2023-02-30, 2023-04-31 and month 13 all fail |
| Dates.UnpaddedDateRejected | src/controllers/bookController.js:67 | 2023-2-28, with its month unpadded, fails |
| Records.Bump | src/controllers/reviewController.js:54-57 | every book other than the first with the id is left as it was; that book keeps every field except the counter, which moves by exactly the delta |
| Records.LiveReviewsExactly | src/controllers/bookController.js:146-148 | the live-review query holds exactly the stored reviews of the book that are not deleted |
| Records.LiveReviewsCount | src/controllers/bookController.js:146-150 | the live-review query lists each live review once: its length is the number of store positions holding a live review of the book |
| Records.LiveCountRetire | src/controllers/reviewController.js:181-184 | retiring one live review of a book lowers its live count by exactly one |
| Records.UserAddedKeepsConsistent | src/controllers/userController.js:44-73 | inserting a user with unused phone and e-mail keeps the store invariant |
| Records.BookAddedKeepsConsistent | src/controllers/bookController.js:47-75 | inserting a live book with counter 0 and unused title and ISBN keeps the invariant |
| Records.BookEditedKeepsConsistent | src/controllers/bookController.js:186-242 | replacing a book with one of the same id, ISBN, counter and state, and an unused or unchanged title, keeps the invariant |
| Records.BookDeletedKeepsConsistent | src/controllers/bookController.js:267-281 | soft-deleting a book and all its reviews keeps the invariant |
| Records.ReviewAddedKeepsConsistent | src/controllers/reviewController.js:43-57 | appending a live review of a live book and incrementing that book's counter keeps the invariant |
| Records.ReviewEditedKeepsConsistent | src/controllers/reviewController.js:108-138 | changing a review's content, keeping its id, book and state, keeps the invariant |
| Records.ReviewDeletedKeepsConsistent | src/controllers/reviewController.js:176-189 | soft-deleting a live review and decrementing its book's counter keeps the invariant |
| Queries.MatchesQuery | src/controllers/bookController.js:112 | the filter `{...query, isDeleted: false}`: a book matches when it is live and agrees with every given `userId`, `category` and `subcategory` |
| Queries.TitleLeTotal | src/controllers/bookController.js:112 | the title order compares every pair of titles |
| Queries.SortByTitle | src/controllers/bookController.js:112 | the result is sorted by title and is a permutation of the input |
| Queries.SelectBooks | src/controllers/bookController.js:112 | holds exactly the stored books that are not deleted and match every given query key |
| Queries.GetBooks | src/controllers/bookController.js:94-122 | 404 for a malformed or unknown userId, 404 when nothing matches; otherwise a non-empty, title-sorted permutation of exactly the matching live books |
| Queries.GetBookById | src/controllers/bookController.js:130-162 | 400 for a malformed id, 404 when no live book has it, otherwise that book, its live reviews as the store query returns them (exactly the live reviews of the book, in store order, each once) and a count equal to the number of store positions holding one |
| Queries.DetailCountMatchesCounter | src/controllers/bookController.js:146-156 | in a consistent store, the count the detail view computes equals the counter stored on the book |
| Queries.FindUser | src/controllers/userController.js:107-110 | finds a user with exactly that e-mail and password, or proves there is none |
| Queries.Login | src/controllers/userController.js:95-121 | 400 for an empty body or a blank e-mail or password; success exactly when a user has that e-mail and password by plain equality, returning that user's id; otherwise 404 |
| Rules.UserRejection | src/controllers/userController.js:16-71 | the guards of `createUser` in source order: empty body, missing field, blank field, bad name, bad title, bad phone, bad e-mail, duplicate phone or e-mail, bad password, then the address checks; the first that fails names the 400 reason |
| Rules.NewUser | src/controllers/userController.js:73 | the stored user: the request's fields as sent, password included, under the new id; the address is kept when all three of its parts are given |
| Rules.AcceptedUserIsWellFormed | src/controllers/userController.js:16-71 | an accepted registration has one of Mr/Mrs/Miss, a ten-digit phone, a valid e-mail and a 6-15 alphanumeric password, and shares phone and e-mail with no stored user |
| Rules.DuplicateReportedBeforePassword | src/controllers/userController.js:44-54 | a reused phone or e-mail is rejected as a duplicate, whatever the password |
| Rules.SecondRegistrationRejected | src/controllers/userController.js:44-50 | after a registration is stored, a later one with the same phone or e-mail is rejected, and rejected as a duplicate when its earlier fields pass |
| Rules.BookRejection | src/controllers/bookController.js:26-73 | the guards of `createBook` in source order: a missing or blank field, the second emptiness check, the ISBN pattern, a title or ISBN used by any stored book, then the date check on the trimmed date; the first that fails names the 400 reason |
| Rules.NewBook | src/controllers/bookController.js:75 | the stored book: the request's fields and user as sent, release date untrimmed, live with counter 0 and no deletion time |
| Rules.NonEmptyCheckIsRedundant | src/controllers/bookController.js:33-38 | for string fields, the second emptiness check of `createBook` never fires after `isValid` (a numeric field would reach it, see `Validation.NumberHasNoKeys`) |
| Rules.CreatedIsbnHasFiveDigits | src/controllers/bookController.js:40-73 | a created book has a five-digit ISBN, a title and ISBN unused by every stored book (deleted ones too), and a trimmed release date that passes the date check |
| Rules.ThirteenDigitIsbnRejected | src/controllers/bookController.js:40-45 | a thirteen-character ISBN is always rejected with the ISBN error |
| Rules.DuplicateReportedBeforeDate | src/controllers/bookController.js:47-73 | a duplicate title or ISBN is reported as a duplicate even when the date is bad |
| Rules.InvalidDateTextAccepted | src/controllers/bookController.js:65-75 | a request accepted with a real date is also accepted with `releasedAt` " Invalid date  ", which is stored untrimmed |
| Rules.CreateThenDetail | src/controllers/bookController.js:75-81 | a created book is returned by the detail view with exactly the created fields, no reviews and count 0 |
| Rules.UpdateRejection | src/controllers/bookController.js:178-235 | the guards of `updateBooks` in source order: empty body, nothing to update, then per given field its blank, duplicate, ISBN and date checks, then 500 for an id the ObjectId cast refuses and 404 for no live book; the first that fails names the status and reason |
| Rules.Patched | src/controllers/bookController.js:184-242 | the updated book: each given title, excerpt and releasedAt replaces the stored one, every other field is kept |
| Rules.IsbnUpdateNeverWrites | src/controllers/bookController.js:207-214 | an update carrying a truthy ISBN is always rejected; once the earlier guards pass, the rejection is the 500 of the undefined `validateISBN` |
| Rules.OwnTitleRejected | src/controllers/bookController.js:191-195 | re-sending a book's own title is rejected as a duplicate |
| Rules.UpdatedBookStaysUnique | src/controllers/bookController.js:186-242 | a successful update keeps id, ISBN, counter and live state, and titles stay unique |
| Rules.DeleteBookRejection | src/controllers/bookController.js:267-274 | 500 for an id the ObjectId cast refuses, 404 when no live book has it, otherwise no rejection |
| Rules.Cascade | src/controllers/bookController.js:276-279 | the cascade keeps the length and every field except `isDeleted`; afterwards a review is deleted exactly when it was deleted before or belongs to the book |
| Rules.CascadeRetiresExactlyTheBook | src/controllers/bookController.js:276-279 | after the cascade the book has no live reviews, and every other book's live reviews are unchanged |
| Rules.SecondDeleteRejected | src/controllers/bookController.js:267-274 | deleting a book a second time answers 404 |
| Rules.ReviewRejection | src/controllers/reviewController.js:21-41 | the guards of `reviewBook` in source order: missing book id, malformed id, no live book, rating outside 1-5, blank review text |
| Rules.NewReview | src/controllers/reviewController.js:19-43 | the stored review: bound to the path's book, with the request's reviewer, rating and text, reviewed at the write time, live |
| Rules.RatingDecides | src/controllers/reviewController.js:35-37 | for a live book and non-blank text, a review is accepted exactly when the rating is 1 to 5: 0 and 6 fail, 1 and 5 pass |
| Rules.ReviewAccess | src/controllers/reviewController.js:82-102 | malformed ids 400, no live book 404, no live review 404, a review of another book 400, otherwise no rejection |
| Rules.ReviewEditRejection | src/controllers/reviewController.js:78-130 | the guards of `updateBookReview` in source order: the route-parameter check, the access checks, nothing to edit, blank reviewer or text, rating outside 1-5 |
| Rules.Edited | src/controllers/reviewController.js:108-138 | the edited review: each given reviewedBy, review and rating replaces the stored one, reviewedAt becomes the write time, every other field is kept |
| Rules.ParamsCheckNeverFires | src/controllers/reviewController.js:78-80 | the route parameters always hold two keys, so for every store and request `updateBookReview` never answers with its empty-parameters error |
| Rules.ForeignBookRejected | src/controllers/reviewController.js:96-102 | a live review reached through another live book is rejected with 400 "not relevant" |
| Rules.AccessMeansOwnBook | src/controllers/reviewController.js:82-102 | the access checks pass only for a live review of a live book, reached through its own book id |
| Rules.RepeatReviewDeleteRejected | src/controllers/reviewController.js:164-179 | after a review is deleted, deleting it again answers 404 and so does not decrement again |
| BookStore.Store.CreateUser | src/controllers/userController.js:11-90 | rejects with 400 and the first failing guard without inserting; otherwise appends exactly the requested user and returns it, password included; keeps the invariant |
| BookStore.Store.CreateBook | src/controllers/bookController.js:14-88 | rejects with 400 without inserting; otherwise appends exactly the requested book, live with counter 0; other collections unchanged; keeps the invariant |
| BookStore.Store.UpdateBook | src/controllers/bookController.js:171-255 | rejects with the first failing guard's status without writing; otherwise replaces only the given title, excerpt and releasedAt of the first live book with the id |
| BookStore.Store.DeleteBook | src/controllers/bookController.js:263-285 | 500 for a malformed id, 404 for no live book; otherwise sets isDeleted and deletedAt on that book only, and retires in place exactly its live reviews; counter untouched |
| BookStore.Store.RetireReviewsOf | src/controllers/bookController.js:276-279 | the in-place pass over the reviews leaves them equal to `Cascade` of the old reviews, so exactly the live reviews of the book are now deleted; users and books untouched |
| BookStore.Store.CreateReview | src/controllers/reviewController.js:14-62 | rejects without writing; otherwise appends exactly one review bound to the path's book and raises that book's counter by one |
| BookStore.Store.Locate | src/controllers/reviewController.js:82-102 | runs the id, book, review and relevance checks in that order and returns the positions they found |
| BookStore.Store.UpdateReview | src/controllers/reviewController.js:70-146 | runs the route-parameter check, access and patch checks; rejects without writing; otherwise replaces only the given reviewedBy, review and rating, always refreshes reviewedAt, and leaves books unchanged |
| BookStore.Store.DeleteReview | src/controllers/reviewController.js:154-195 | rejects without writing; otherwise soft-deletes exactly that review and lowers the book's counter by one |
| BookStore.ReviewCounterRun | src/controllers/reviewController.js:43-189 | on a fresh store, create book, two reviews and deleting the first leave the detail view with only the second review, a computed count of 1 and a stored counter of 1 |

## Left out

- Server start-up, Express middleware, the database connection and the route table are not part of this model. `createUrl` is imported by the routes but never exported.
- JWT signing, token expiry and the authentication and authorisation middleware are calls into libraries that are not shown.
- Queries.Login: returns the matching user's id where the code signs a token with it.
- Ids are supplied by the caller (`newId`). The time (`Date.now()`) is a parameter (`now`).
- Records.IsValidId: ObjectId validity is modelled only as 24 lower-case hex characters. Upper-case hex and 12-byte strings, which Mongoose also accepts, are not modelled.
- The Mongoose schemas are not modelled. Timestamps, `__v`, projections (`select`) and body fields beyond the checked ones are not modelled.
- Records.Consistent: `createBook` and `reviewBook` store the whole request body. A body that carries `reviews`, `isDeleted` or `deletedAt` is written as sent, and a review posted with `isDeleted: true` still raises the counter. The request types here cannot carry those keys, so the invariant, and every `*KeepsConsistent` lemma, holds only for bodies without them. `Rules.NewReview` sets `reviewedAt` to the write time `now`. The handler never sets it, so this assumes a schema default that is not modelled.
- Queries.GetBooks: only the `userId`, `category` and `subcategory` query keys are modelled. Other keys are passed to the store unchecked.
- Dates.PassesDateCheck: the date check is stated as a calendar predicate over years 0000-9999, plus the text `Invalid date`. `moment`'s non-strict parsing internals are not re-implemented. Only the round trip's outcome is modelled: a canonical rendering or `Invalid date`.
- Each handler is one atomic step. The read-then-write race between a duplicate check and the insert is not modelled, and neither is the separate counter write after a review write.
- JavaScript type coercion is not modelled. Fields are strings or absent, and ratings are integers. So a numeric body field, which passes `isValid` and then fails the second emptiness check of `createBook` with 400, is not modelled. Numeric-string and fractional ratings, and non-string fields reaching `trim`, are out of scope.
- Response message texts are not modelled. Replies carry a status code and an error kind only.
