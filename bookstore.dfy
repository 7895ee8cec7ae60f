/** The bookstore service's records, its seed catalog and every request
    handler that only reads the store, as functions of the collections.
    Also the state transitions of the three mutating handlers as functions,
    which the methods of Server.Store are proved against. */
module Bookstore {
  import opened Seqs

  datatype Review = Review(username: string, text: string)

  datatype Book = Book(isbn: string, title: string, author: string, reviews: seq<Review>)

  datatype User = User(username: string, password: string)

  /** The HTTP status of a response: 200, 201, 400, 401 and 404. */
  datatype Status = Ok | Created | BadRequest | Unauthorized | NotFound

  /** A plain-text response. */
  datatype Reply = Reply(status: Status, message: string)

  /** A response that is either a JSON payload (status 200) or a text reply. */
  datatype Response<T> = Json(value: T) | Fail(reply: Reply)

  /** The two books the process starts with. */
  const SeedBooks: seq<Book> := [
    Book("20061", "Book One", "Author R", []),
    Book("20031", "Book Two", "Author D", [])
  ]

  ghost predicate UniqueIsbns(books: seq<Book>) {
    forall i, j :: 0 <= i < j < |books| ==> books[i].isbn != books[j].isbn
  }

  ghost predicate UniqueUsernames(users: seq<User>) {
    forall i, j :: 0 <= i < j < |users| ==> users[i].username != users[j].username
  }

  ghost predicate HasIsbn(books: seq<Book>, isbn: string) {
    exists i :: 0 <= i < |books| && books[i].isbn == isbn
  }

  lemma SeedIsbnsUnique()
    ensures UniqueIsbns(SeedBooks)
  {
  }

  /** The seed catalog answers its own ISBN and 404s an unknown one. */
  lemma SeedLookups()
    ensures BookRoute(SeedBooks, "20061") == Json(Book("20061", "Book One", "Author R", []))
    ensures BookRoute(SeedBooks, "99999") == Fail(Reply(NotFound, "Book not found"))
  {
    SeedIsbnsUnique();
    FindBookUnique(SeedBooks, "20061", 0);
    assert !HasIsbn(SeedBooks, "99999") by {
      assert SeedBooks[0].isbn != "99999" && SeedBooks[1].isbn != "99999";
    }
  }

  // ---------------------------------------------------------------- lookups

  function IsbnIs(isbn: string): Book -> bool {
    (b: Book) => b.isbn == isbn
  }

  function AuthorIs(author: string): Book -> bool {
    (b: Book) => b.author == author
  }

  function TitleIncludes(query: string): Book -> bool {
    (b: Book) => Includes(b.title, query)
  }

  /** `books.find(b => b.isbn === isbn)`, as the position of the book found. */
  function FindBook(books: seq<Book>, isbn: string): (r: Option<nat>)
    ensures r.None? <==> !HasIsbn(books, isbn)
    ensures r.Some? ==> r.value < |books| && books[r.value].isbn == isbn
    ensures r.Some? ==> forall j :: 0 <= j < r.value ==> books[j].isbn != isbn
  {
    var r := Find(books, IsbnIs(isbn));
    assert r.None? ==> !HasIsbn(books, isbn) by {
      if r.None? {
        forall i | 0 <= i < |books| ensures books[i].isbn != isbn {
          assert !IsbnIs(isbn)(books[i]);
        }
      }
    }
    r
  }

  /** With unique ISBNs, the book found is the only book with that ISBN. */
  lemma FindBookUnique(books: seq<Book>, isbn: string, i: nat)
    requires UniqueIsbns(books)
    requires i < |books| && books[i].isbn == isbn
    ensures FindBook(books, isbn) == Some(i)
  {
  }

  /** `getBooksByAuthor` and the filter of the author route: exact author match. */
  function BooksByAuthor(books: seq<Book>, author: string): (r: seq<Book>)
    ensures forall b :: b in r <==> b in books && b.author == author
  {
    Filter(books, AuthorIs(author))
  }

  /** `getBooksByTitle` and the filter of the title route: case-sensitive substring. */
  function BooksByTitle(books: seq<Book>, query: string): (r: seq<Book>)
    ensures forall b :: b in r <==> b in books && Includes(b.title, query)
  {
    Filter(books, TitleIncludes(query))
  }

  /** A book is in the title result exactly when the query occurs in its title. */
  lemma BooksByTitleSubstring(books: seq<Book>, query: string, b: Book)
    ensures b in BooksByTitle(books, query) <==> b in books && exists i :: OccursAt(b.title, query, i)
  {
    IncludesIff(b.title, query);
  }

  /** Both filters keep catalog order: the result over a concatenation is the
      concatenation of the results. */
  lemma FiltersKeepOrder(a: seq<Book>, b: seq<Book>, author: string, query: string)
    ensures BooksByAuthor(a + b, author) == BooksByAuthor(a, author) + BooksByAuthor(b, author)
    ensures BooksByTitle(a + b, query) == BooksByTitle(a, query) + BooksByTitle(b, query)
  {
    FilterAppend(a, b, AuthorIs(author));
    FilterAppend(a, b, TitleIncludes(query));
  }

  // ------------------------------------------------------------ read routes

  /** GET /books and GET /async-books: the whole catalog, in order. */
  function ListRoute(books: seq<Book>): (r: Response<seq<Book>>)
    ensures r.Json? && r.value == books
  {
    Json(books)
  }

  /** `books` is the catalog as it stands when the timer fires. */
  function AsyncListRoute(books: seq<Book>): (r: Response<seq<Book>>)
    ensures r.Json? && r.value == books
  {
    Json(AllBooks(books))
  }

  /** `getAllBooks`, without its one-second timer: it resolves with the
      catalog array itself. */
  function AllBooks(books: seq<Book>): (r: seq<Book>)
    ensures r == books
  {
    books
  }

  lemma ListRoutesAgree(books: seq<Book>)
    ensures ListRoute(books) == AsyncListRoute(books) == Json(books)
  {
  }

  /** GET /books/isbn/:isbn */
  function BookRoute(books: seq<Book>, isbn: string): (r: Response<Book>)
    ensures r.Fail? <==> !HasIsbn(books, isbn)
    ensures r.Fail? ==> r.reply == Reply(NotFound, "Book not found")
    ensures r.Json? ==> exists i :: 0 <= i < |books| && books[i] == r.value && r.value.isbn == isbn
                                    && forall j :: 0 <= j < i ==> books[j].isbn != isbn
  {
    match FindBook(books, isbn)
    case None => Fail(Reply(NotFound, "Book not found"))
    case Some(k) => Json(books[k])
  }

  /** `getBookByISBN`: resolves with the book or rejects with a message. */
  function GetBookByIsbn(books: seq<Book>, isbn: string): (r: Option<Book>)
    ensures r.None? <==> !HasIsbn(books, isbn)
    ensures r.Some? ==> r.value in books && r.value.isbn == isbn
  {
    match FindBook(books, isbn)
    case None => None
    case Some(k) => Some(books[k])
  }

  /** GET /promise-books/isbn/:isbn: the rejection text becomes a 404 body. */
  function PromiseBookRoute(books: seq<Book>, isbn: string): (r: Response<Book>)
    ensures r.Fail? <==> !HasIsbn(books, isbn)
    ensures r.Fail? ==> r.reply == Reply(NotFound, "Book not found")
    ensures r.Json? ==> r.value in books && r.value.isbn == isbn
  {
    match GetBookByIsbn(books, isbn)
    case None => Fail(Reply(NotFound, "Book not found"))
    case Some(b) => Json(b)
  }

  /** The promise route answers exactly as the synchronous one. */
  lemma PromiseRouteAgrees(books: seq<Book>, isbn: string)
    ensures PromiseBookRoute(books, isbn) == BookRoute(books, isbn)
  {
  }

  /** GET /books/review/:isbn */
  function ReviewsRoute(books: seq<Book>, isbn: string): (r: Response<seq<Review>>)
    ensures r.Fail? <==> !HasIsbn(books, isbn)
    ensures r.Fail? ==> r.reply == Reply(NotFound, "No reviews found")
    ensures r.Json? ==> BookRoute(books, isbn).Json? && r.value == BookRoute(books, isbn).value.reviews
  {
    match FindBook(books, isbn)
    case None => Fail(Reply(NotFound, "No reviews found"))
    case Some(k) => Json(books[k].reviews)
  }

  /** GET /books/author/:author: an empty result is a 404. */
  function AuthorRoute(books: seq<Book>, author: string): (r: Response<seq<Book>>)
    ensures r.Fail? <==> forall i :: 0 <= i < |books| ==> books[i].author != author
    ensures r.Fail? ==> r.reply == Reply(NotFound, "No books found for this author")
    ensures r.Json? ==> r.value != [] && forall b :: b in r.value <==> b in books && b.author == author
  {
    var found := BooksByAuthor(books, author);
    assert found == [] ==> forall i :: 0 <= i < |books| ==> books[i].author != author by {
      if found == [] {
        forall i | 0 <= i < |books| ensures books[i].author != author {
          assert books[i] in books;
        }
      }
    }
    assert |found| > 0 ==> found[0] in books && found[0].author == author by {
      if |found| > 0 { assert found[0] in found; }
    }
    if |found| > 0 then Json(found) else Fail(Reply(NotFound, "No books found for this author"))
  }

  /** GET /async-books/author/:author: always a JSON array, possibly empty. */
  function AsyncAuthorRoute(books: seq<Book>, author: string): (r: Response<seq<Book>>)
    ensures r.Json? && forall b :: b in r.value <==> b in books && b.author == author
  {
    Json(BooksByAuthor(books, author))
  }

  /** The two author routes differ exactly when no book matches: 404 against `[]`. */
  lemma AuthorRoutesDiffer(books: seq<Book>, author: string)
    ensures AuthorRoute(books, author) != AsyncAuthorRoute(books, author)
            <==> AsyncAuthorRoute(books, author) == Json([])
  {
  }

  /** GET /books/title/:title: an empty result is a 404. */
  function TitleRoute(books: seq<Book>, query: string): (r: Response<seq<Book>>)
    ensures r.Fail? <==> forall i :: 0 <= i < |books| ==> !Includes(books[i].title, query)
    ensures r.Fail? ==> r.reply == Reply(NotFound, "No books found with this title")
    ensures r.Json? ==> r.value != [] && forall b :: b in r.value <==> b in books && Includes(b.title, query)
  {
    var found := BooksByTitle(books, query);
    assert found == [] ==> forall i :: 0 <= i < |books| ==> !Includes(books[i].title, query) by {
      if found == [] {
        forall i | 0 <= i < |books| ensures !Includes(books[i].title, query) {
          assert books[i] in books;
        }
      }
    }
    assert |found| > 0 ==> found[0] in books && Includes(found[0].title, query) by {
      if |found| > 0 { assert found[0] in found; }
    }
    if |found| > 0 then Json(found) else Fail(Reply(NotFound, "No books found with this title"))
  }

  /** GET /async-books/title/:title: always a JSON array, possibly empty. */
  function AsyncTitleRoute(books: seq<Book>, query: string): (r: Response<seq<Book>>)
    ensures r.Json? && forall b :: b in r.value <==> b in books && Includes(b.title, query)
  {
    Json(BooksByTitle(books, query))
  }

  lemma TitleRoutesDiffer(books: seq<Book>, query: string)
    ensures TitleRoute(books, query) != AsyncTitleRoute(books, query)
            <==> AsyncTitleRoute(books, query) == Json([])
  {
  }

  // ------------------------------------------------------------------ users

  function NameIs(username: string): User -> bool {
    (u: User) => u.username == username
  }

  function Matches(username: string, password: string): User -> bool {
    (u: User) => u.username == username && u.password == password
  }

  /** `users.find(u => u.username === username)` finds a user. */
  function Taken(users: seq<User>, username: string): (r: bool)
    ensures r <==> exists i :: 0 <= i < |users| && users[i].username == username
  {
    var f := Find(users, NameIs(username));
    assert f.Some? ==> users[f.value].username == username by {
      if f.Some? { assert NameIs(username)(users[f.value]); }
    }
    assert f.None? ==> forall i :: 0 <= i < |users| ==> users[i].username != username by {
      if f.None? {
        forall i | 0 <= i < |users| ensures users[i].username != username {
          assert !NameIs(username)(users[i]);
        }
      }
    }
    f.Some?
  }

  /** POST /login: succeeds exactly when a stored user has both fields. */
  function Login(users: seq<User>, username: string, password: string): (r: Reply)
    ensures r.status == Ok <==> User(username, password) in users
    ensures r.status == Ok ==> r.message == "Login successful"
    ensures r.status != Ok ==> r == Reply(Unauthorized, "Invalid credentials")
  {
    var f := Find(users, Matches(username, password));
    assert f.Some? ==> users[f.value] == User(username, password) by {
      if f.Some? { assert Matches(username, password)(users[f.value]); }
    }
    assert f.None? ==> User(username, password) !in users by {
      if f.None? {
        forall i | 0 <= i < |users| ensures users[i] != User(username, password) {
          assert !Matches(username, password)(users[i]);
        }
      }
    }
    if f.Some? then Reply(Ok, "Login successful") else Reply(Unauthorized, "Invalid credentials")
  }

  /** The users after POST /register. */
  function Registered(users: seq<User>, username: string, password: string): (r: seq<User>)
    ensures users <= r && |r| <= |users| + 1
    ensures Taken(r, username)
  {
    if Taken(users, username) then users
    else
      var r := users + [User(username, password)];
      assert r[|users|].username == username;
      r
  }

  function RegisterReply(users: seq<User>, username: string): (r: Reply)
    ensures r.status == BadRequest <==> Taken(users, username)
    ensures r.status == BadRequest ==> r == Reply(BadRequest, "User already exists")
    ensures r.status != BadRequest ==> r == Reply(Created, "User registered successfully")
  {
    if Taken(users, username) then Reply(BadRequest, "User already exists")
    else Reply(Created, "User registered successfully")
  }

  /** Registration keeps usernames unique, and either changes nothing (the
      name is taken) or adds exactly the new user at the end. */
  lemma RegisterEffect(users: seq<User>, username: string, password: string)
    requires UniqueUsernames(users)
    ensures UniqueUsernames(Registered(users, username, password))
    ensures Taken(users, username) ==> Registered(users, username, password) == users
    ensures !Taken(users, username) ==> Registered(users, username, password) == users + [User(username, password)]
    ensures Taken(Registered(users, username, password), username)
  {
    var after := Registered(users, username, password);
    assert after[|after| - 1].username == username || Taken(users, username);
  }

  /** Registering the same name twice: the second attempt is a 400 and
      leaves the users as the first attempt left them. */
  lemma RegisterTwice(users: seq<User>, username: string, password: string, password2: string)
    ensures RegisterReply(Registered(users, username, password), username).status == BadRequest
    ensures Registered(Registered(users, username, password), username, password2)
            == Registered(users, username, password)
  {
    var after := Registered(users, username, password);
    if !Taken(users, username) {
      assert after[|after| - 1].username == username;
    }
  }

  /** After a fresh registration the same credentials log in, and any other
      password for that name is refused. */
  lemma LoginAfterRegister(users: seq<User>, username: string, password: string, other: string)
    requires !Taken(users, username)
    ensures Login(Registered(users, username, password), username, password).status == Ok
    ensures other != password ==> Login(Registered(users, username, password), username, other).status == Unauthorized
  {
    var after := Registered(users, username, password);
    assert after[|users|] == User(username, password);
    forall i | 0 <= i < |after| && other != password ensures after[i] != User(username, other) {
      if i < |users| {
        assert users[i].username != username;
      }
    }
  }

  // ---------------------------------------------------------------- reviews

  /** The same books, ISBNs, titles and authors in the same order; only
      review sequences may differ. */
  ghost predicate SameCatalog(a: seq<Book>, b: seq<Book>) {
    |a| == |b| &&
    forall i :: 0 <= i < |a| ==>
      a[i].isbn == b[i].isbn && a[i].title == b[i].title && a[i].author == b[i].author
  }

  /** Review changes do not move a lookup and keep ISBNs unique. */
  lemma SameCatalogLookup(a: seq<Book>, b: seq<Book>, isbn: string)
    requires SameCatalog(a, b)
    ensures FindBook(a, isbn) == FindBook(b, isbn)
    ensures UniqueIsbns(a) ==> UniqueIsbns(b)
  {
    var fa, fb := FindBook(a, isbn), FindBook(b, isbn);
    if fa.None? {
      assert fb.None? by {
        forall i | 0 <= i < |b| ensures b[i].isbn != isbn {
          assert a[i].isbn != isbn;
        }
      }
    } else {
      assert b[fa.value].isbn == isbn;
    }
  }

  /** Reviews with a different username, in their original order. */
  function NotBy(username: string): Review -> bool {
    (rv: Review) => rv.username != username
  }

  function WithoutReviewsBy(reviews: seq<Review>, username: string): (r: seq<Review>)
    ensures forall rv :: rv in r <==> rv in reviews && rv.username != username
  {
    Filter(reviews, NotBy(username))
  }

  /** The books after POST /books/review/:isbn with `{username, review}`. */
  function ReviewAdded(books: seq<Book>, isbn: string, review: Review): (r: seq<Book>)
    ensures SameCatalog(books, r)
  {
    match FindBook(books, isbn)
    case None => books
    case Some(k) => books[k := books[k].(reviews := books[k].reviews + [review])]
  }

  /** The books after DELETE /books/review/:isbn with `{username}`. */
  function ReviewsDeleted(books: seq<Book>, isbn: string, username: string): (r: seq<Book>)
    ensures SameCatalog(books, r)
  {
    match FindBook(books, isbn)
    case None => books
    case Some(k) => books[k := books[k].(reviews := WithoutReviewsBy(books[k].reviews, username))]
  }

  /** Adding a review appends exactly one review to the found book's
      sequence; earlier reviews and every other book are unchanged; an
      unknown ISBN changes nothing. */
  lemma ReviewAddedEffect(books: seq<Book>, isbn: string, review: Review)
    ensures SameCatalog(books, ReviewAdded(books, isbn, review))
    ensures !HasIsbn(books, isbn) ==> ReviewAdded(books, isbn, review) == books
    ensures HasIsbn(books, isbn) ==>
      var k := FindBook(books, isbn).value;
      var after := ReviewAdded(books, isbn, review);
      |after[k].reviews| == |books[k].reviews| + 1 &&
      after[k].reviews[..|books[k].reviews|] == books[k].reviews &&
      after[k].reviews[|books[k].reviews|] == review &&
      forall i :: 0 <= i < |books| && i != k ==> after[i] == books[i]
  {
    if HasIsbn(books, isbn) {
      var k := FindBook(books, isbn).value;
      var after := ReviewAdded(books, isbn, review);
      assert after[k].reviews == books[k].reviews + [review];
    }
  }

  /** Deleting leaves the found book's reviews minus those by `username`, in
      the same order; none by `username` remain; every other book is
      unchanged; an unknown ISBN changes nothing. */
  lemma ReviewsDeletedEffect(books: seq<Book>, isbn: string, username: string)
    ensures SameCatalog(books, ReviewsDeleted(books, isbn, username))
    ensures !HasIsbn(books, isbn) ==> ReviewsDeleted(books, isbn, username) == books
    ensures HasIsbn(books, isbn) ==>
      var k := FindBook(books, isbn).value;
      var after := ReviewsDeleted(books, isbn, username);
      after[k].reviews == Filter(books[k].reviews, NotBy(username)) &&
      (forall j :: 0 <= j < |after[k].reviews| ==> after[k].reviews[j].username != username) &&
      forall i :: 0 <= i < |books| && i != k ==> after[i] == books[i]
  {
    if HasIsbn(books, isbn) {
      var k := FindBook(books, isbn).value;
      var after := ReviewsDeleted(books, isbn, username);
      forall j | 0 <= j < |after[k].reviews| ensures after[k].reviews[j].username != username {
        assert after[k].reviews[j] in after[k].reviews;
      }
    }
  }

  /** Deletion is idempotent: a second DELETE for the same name changes nothing. */
  lemma ReviewsDeletedIdempotent(books: seq<Book>, isbn: string, username: string)
    ensures ReviewsDeleted(ReviewsDeleted(books, isbn, username), isbn, username)
            == ReviewsDeleted(books, isbn, username)
  {
    var once := ReviewsDeleted(books, isbn, username);
    ReviewsDeletedEffect(books, isbn, username);
    SameCatalogLookup(books, once, isbn);
    match FindBook(books, isbn)
    case None =>
    case Some(k) =>
      FilterIdempotent(books[k].reviews, NotBy(username));
  }
}
