/** The process-wide store of the service: the catalog and the user list,
    updated in place by the three mutating request handlers. The read-only
    handlers are the functions of module Bookstore applied to `books` and
    `users`. */
module Server {
  import opened Seqs
  import opened Bookstore

  class Store {
    var books: seq<Book>
    var users: seq<User>

    /** ISBNs and usernames are unique. */
    ghost predicate Valid()
      reads this
    {
      UniqueIsbns(books) && UniqueUsernames(users)
    }

    /** The process starts with the two seed books and no users. */
    constructor ()
      ensures Valid()
      ensures books == SeedBooks && users == []
    {
      books := SeedBooks;
      users := [];
      SeedIsbnsUnique();
    }

    /** POST /register: a taken username is a 400 and changes nothing;
        otherwise the user is appended and the reply is a 201. */
    method Register(username: string, password: string) returns (r: Reply)
      requires Valid()
      modifies this
      ensures Valid()
      ensures r == RegisterReply(old(users), username)
      ensures users == Registered(old(users), username, password)
      ensures Taken(old(users), username) ==> users == old(users)
      ensures !Taken(old(users), username) ==> users == old(users) + [User(username, password)]
      ensures books == old(books)
    {
      RegisterEffect(users, username, password);
      if Find(users, NameIs(username)).Some? {
        return Reply(BadRequest, "User already exists");
      }
      users := users + [User(username, password)];
      r := Reply(Created, "User registered successfully");
    }

    /** POST /books/review/:isbn: appends `{username, review}` to the book
        found, or answers 404 and changes nothing. */
    method AddReview(isbn: string, username: string, text: string) returns (r: Reply)
      requires Valid()
      modifies this
      ensures Valid()
      ensures books == ReviewAdded(old(books), isbn, Review(username, text))
      ensures SameCatalog(old(books), books)
      ensures r == if HasIsbn(old(books), isbn) then Reply(Ok, "Review added successfully")
                   else Reply(NotFound, "Book not found")
      ensures users == old(users)
    {
      ReviewAddedEffect(books, isbn, Review(username, text));
      SameCatalogLookup(books, ReviewAdded(books, isbn, Review(username, text)), isbn);
      var found := FindBook(books, isbn);
      if found.Some? {
        var k := found.value;
        books := books[k := books[k].(reviews := books[k].reviews + [Review(username, text)])];
        r := Reply(Ok, "Review added successfully");
      } else {
        r := Reply(NotFound, "Book not found");
      }
    }

    /** DELETE /books/review/:isbn: drops every review by `username` from the
        book found (200 even when there was none), or answers 404 and
        changes nothing. */
    method DeleteReviews(isbn: string, username: string) returns (r: Reply)
      requires Valid()
      modifies this
      ensures Valid()
      ensures books == ReviewsDeleted(old(books), isbn, username)
      ensures SameCatalog(old(books), books)
      ensures r == if HasIsbn(old(books), isbn) then Reply(Ok, "Review deleted")
                   else Reply(NotFound, "Book not found")
      ensures users == old(users)
    {
      ReviewsDeletedEffect(books, isbn, username);
      SameCatalogLookup(books, ReviewsDeleted(books, isbn, username), isbn);
      var found := FindBook(books, isbn);
      if found.Some? {
        var k := found.value;
        books := books[k := books[k].(reviews := Filter(books[k].reviews, NotBy(username)))];
        r := Reply(Ok, "Review deleted");
      } else {
        r := Reply(NotFound, "Book not found");
      }
    }
  }

  /** A session against a fresh store: register, log in, review, delete twice. */
  method Session()
  {
    var store := new Store();
    var reply := store.Register("alice", "pw");
    assert reply.status == Created;
    LoginAfterRegister([], "alice", "pw", "wrong");
    assert Login(store.users, "alice", "pw").status == Ok;
    assert Login(store.users, "alice", "wrong").status == Unauthorized;
    reply := store.Register("alice", "pw");
    assert reply == Reply(BadRequest, "User already exists");

    assert store.books == SeedBooks;
    FindBookUnique(SeedBooks, "20061", 0);
    reply := store.AddReview("20061", "alice", "Great");
    assert reply.status == Ok;
    assert store.books[0].reviews == [] + [Review("alice", "Great")] == [Review("alice", "Great")];
    FindBookUnique(store.books, "20061", 0);
    assert ReviewsRoute(store.books, "20061") == Json([Review("alice", "Great")]);

    reply := store.DeleteReviews("20061", "alice");
    assert reply.status == Ok;
    reply := store.DeleteReviews("20061", "alice");
    assert reply.status == Ok;
  }
}
