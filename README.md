# Bookstore catalog service — Dafny model

The service (`index.js`) keeps two in-memory collections: the catalog of
books, each with an ISBN, a title, an author and an ordered review sequence
(seeded with two books), and the list of registered users (username and
plain-text password). Its HTTP handlers are lookups and filters over these
collections, plus three mutations: register a user, append a review to a
book, and drop every review a username left on a book.

The model has three modules:

- `Seqs` (`seqs.dfy`): the JavaScript built-ins the handlers are written
  with. `Find` is `Array.prototype.find` as the index of the first match,
  `Filter` is `Array.prototype.filter`, `Includes` is
  `String.prototype.includes`, each with an independent characterisation.
- `Bookstore` (`bookstore.dfy`): the records (`Book`, `Review`, `User`), the
  seed catalog, the HTTP outcome (`Status`, one constructor per status code, a text `Reply`,
  and `Response` = JSON payload or text reply), every read-only handler as a
  function of `books` or `users`, and the state after each mutating handler
  as a function of the old state (`Registered`, `ReviewAdded`,
  `ReviewsDeleted`), with the lemmas about them.
- `Server` (`server.dfy`): class `Store` with the two collections as `seq`
  fields, the object invariant `Valid()` (unique ISBNs, unique usernames),
  and the mutating handlers as methods that update the fields and are
  proved against the `Bookstore` functions. `Session` is a client that
  replays the register / login / review / delete scenarios.

A request's outcome is the status and the fixed message text the handler
sends (`"Book not found"`, `"User already exists"`, ...). Login changes no
state, so it is a function over `users`, not a method.

## Model

| member | source | states |
|---|---|---|
| Seqs.Find | index.js:20 | the result is the index of the first element satisfying the predicate, and is None exactly when no element satisfies it |
| Seqs.Filter | index.js:26 | the result holds exactly the elements of the input that satisfy the predicate, and is no longer than the input |
| Seqs.FilterAppend | index.js:26 | filtering a concatenation is the concatenation of the filtered parts, so relative order is kept |
| Seqs.FilterKeepsAll | index.js:77 | filtering returns the sequence unchanged if and only if every element passes |
| Seqs.FilterIdempotent | index.js:77 | filtering twice with the same predicate equals filtering once |
| Seqs.Includes | index.js:32 | every string includes the empty string, and a string never includes a longer one; the full characterisation is IncludesIff |
| Seqs.IncludesIff | index.js:32 | `Includes(s, sub)` holds if and only if `sub` occurs in `s` at some position (the empty string occurs everywhere) |
| Bookstore.SeedIsbnsUnique | index.js:8-11 | the seed catalog has unique ISBNs |
| Bookstore.SeedLookups | index.js:8-11 | looking up "20061" in the seed returns Book One by Author R with no reviews; "99999" gives 404 "Book not found" |
| Bookstore.FindBook | index.js:20 | the position found holds a book with that ISBN and no earlier book has it; none is found exactly when no book has that ISBN |
| Bookstore.FindBookUnique | index.js:8-11 | with unique ISBNs, any book carrying the ISBN is the one found |
| Bookstore.BooksByAuthor | index.js:117-119 | a book is in the result if and only if it is in the catalog and its author equals the argument |
| Bookstore.BooksByTitle | index.js:131-133 | a book is in the result if and only if it is in the catalog and its title includes the argument |
| Bookstore.BooksByTitleSubstring | index.js:32 | a book is in the title result if and only if the query occurs as a substring of its title |
| Bookstore.FiltersKeepOrder | index.js:26 | both filters keep catalog order (they distribute over concatenation of catalogs) |
| Bookstore.ListRoute | index.js:14-16 | always a JSON array holding exactly the catalog, in order (with ListRoutesAgree) |
| Bookstore.AllBooks | index.js:85-91 | `getAllBooks` resolves with the catalog array itself (with ListRoutesAgree) |
| Bookstore.AsyncListRoute | index.js:93-100 | always a JSON array holding exactly the catalog it is applied to, the catalog at the moment the reply is built (with ListRoutesAgree) |
| Bookstore.ListRoutesAgree | index.js:14-16 | GET /books and GET /async-books both return the catalog they are applied to: for GET /books the catalog when the request arrives, for GET /async-books the catalog at the moment the reply is built |
| Bookstore.BookRoute | index.js:19-22 | 404 "Book not found" exactly when no book has the ISBN; otherwise the JSON is the first book with that ISBN |
| Bookstore.GetBookByIsbn | index.js:103-108 | resolves with a catalog book carrying the ISBN, and rejects exactly when none has it |
| Bookstore.PromiseBookRoute | index.js:110-114 | 404 "Book not found" exactly when no book has the ISBN; otherwise a catalog book with that ISBN; PromiseRouteAgrees fixes it as the first one |
| Bookstore.PromiseRouteAgrees | index.js:110-114 | the promise route answers exactly as the synchronous ISBN route |
| Bookstore.ReviewsRoute | index.js:37-40 | 404 "No reviews found" exactly when no book has the ISBN; otherwise the reviews of the book the ISBN route returns |
| Bookstore.AuthorRoute | index.js:25-28 | 404 exactly when no book has that author; otherwise a non-empty array of exactly the books with that author |
| Bookstore.AsyncAuthorRoute | index.js:121-128 | always a JSON array of exactly the books with that author, possibly empty |
| Bookstore.AuthorRoutesDiffer | index.js:25-28 | the sync and async author routes differ exactly when the async one returns `[]` |
| Bookstore.TitleRoute | index.js:31-34 | 404 exactly when no title includes the query; otherwise a non-empty array of exactly the books whose title includes it |
| Bookstore.AsyncTitleRoute | index.js:135-142 | always a JSON array of exactly the books whose title includes the query, possibly empty |
| Bookstore.TitleRoutesDiffer | index.js:31-34 | the sync and async title routes differ exactly when the async one returns `[]` |
| Bookstore.Taken | index.js:46 | true if and only if some stored user has that username |
| Bookstore.Login | index.js:54-58 | 200 "Login successful" if and only if a stored user matches both username and password; otherwise 401 "Invalid credentials" |
| Bookstore.Registered | index.js:44-50 | the old users are a prefix of the new ones, at most one user is added, and the name is taken afterwards; RegisterEffect states the rest |
| Bookstore.RegisterReply | index.js:46-50 | 400 "User already exists" exactly when the username is taken; otherwise 201 "User registered successfully" |
| Bookstore.RegisterEffect | index.js:44-50 | registration keeps usernames unique, leaves users unchanged when the name is taken and otherwise appends exactly the new user |
| Bookstore.RegisterTwice | index.js:46-47 | a second registration of the same name is a 400 and does not duplicate the user |
| Bookstore.LoginAfterRegister | index.js:49-57 | after registering a fresh name, login with the same password succeeds and with any other password is a 401 |
| Bookstore.SameCatalogLookup | index.js:61-82 | when only review sequences differ, ISBN lookup finds the same position and ISBN uniqueness carries over |
| Bookstore.WithoutReviewsBy | index.js:77 | a review remains if and only if it was there and its username differs from the one deleted |
| Bookstore.ReviewAdded | index.js:61-70 | only review sequences change: same books, ISBNs, titles and authors in the same order; ReviewAddedEffect states the new reviews |
| Bookstore.ReviewsDeleted | index.js:73-82 | only review sequences change: same books, ISBNs, titles and authors in the same order; ReviewsDeletedEffect states the new reviews |
| Bookstore.ReviewAddedEffect | index.js:61-70 | for a known ISBN the found book gains exactly one review at the end, earlier reviews and other books unchanged; unknown ISBN changes nothing; titles, authors and ISBNs never change |
| Bookstore.ReviewsDeletedEffect | index.js:73-82 | for a known ISBN the found book's reviews are the old ones minus those by the username, in order, with none of theirs left, other books unchanged; unknown ISBN changes nothing |
| Bookstore.ReviewsDeletedIdempotent | index.js:73-82 | deleting twice for the same username equals deleting once |
| Server.Store.constructor | index.js:8-11 | the store starts with the two seed books, no users, and its invariant |
| Server.Store.Register | index.js:44-51 | 400 and no change when the name is taken; otherwise 201 and the user appended; books unchanged; usernames stay unique |
| Server.Store.AddReview | index.js:61-70 | the new catalog is the old one with the review appended to the found book; 404 and no change for an unknown ISBN; users unchanged; ISBNs stay unique |
| Server.Store.DeleteReviews | index.js:73-82 | the new catalog is the old one with that username's reviews filtered out of the found book; 200 even with nothing to remove; 404 and no change for an unknown ISBN |

## Left out

- Express setup, routing, body parsing and the sending of responses (`res.json`, `res.send`, `res.status`): only each handler's outcome (status, message text or JSON value) is modelled.
- The one-second `setTimeout` in `getAllBooks`, the Promise/async wrappers and their `catch` branches answering 500: timing and scheduling, and the 500 branches cannot be reached by the code they wrap. `AllBooks` returns the catalog directly.
- The unused `axios` import, the port constant and `app.listen` with its log line.
- Request bodies with missing fields (JavaScript `undefined`): every field is a string here.
- Object identity of books: `book.reviews.push` mutates the book object held in the array; the model replaces element k of `books` with the updated record, which is observably the same because no other reference to a book outlives a request.
- Concurrency: every handler except GET /async-books runs to completion in one step of the single-threaded event loop, so each is one atomic step on the store.
- AsyncListRoute: GET /async-books only starts a one-second timer when the request arrives; `resolve(books)` and the reply read the catalog when the timer fires, so reviews added or deleted by requests served during the delay appear in the reply. The model does not represent this interleaving: `AsyncListRoute` is to be read as applied to the store at the moment the timer fires, not when the request arrives.
- Strings: a Dafny `string` is a sequence of Unicode scalar values, while JavaScript strings are UTF-16 code units and a JSON body can carry a lone surrogate that has no Dafny counterpart. The handlers only compare strings with `===` and `includes`, which agree with the model on well-formed text.
