/** A worked request sequence: create a user, log in, add a book by an
    author not yet stored. */
module Scenarios {
  import opened Wrappers
  import opened Seqs
  import opened Errors
  import opened Database
  import opened Queries
  import opened Mutations

  /** Validation rules read off the resolvers' error messages: author names
      of at least 5 characters, user names of at least 3. */
  function MessageHints(): Validation {
    Validation(
      (s: Store, a: Author) => |a.name| >= 5,
      (s: Store, b: Book) => true,
      (s: Store, u: User) => |u.username| >= 3)
  }

  /** Starting from an empty database: user "alice" is created, logs in with
      the password, and adds "Dune" by the new author "Frank Herbert", who
      then has one book; exactly one `BOOK_ADDED` event is published. */
  lemma DuneScenario(sign: Claims -> string)
    ensures var s0 := Store([], [], [], 0);
            var created := CreateUser(MessageHints(), s0, "alice", "scifi");
            var alice := User(0, "alice", "scifi");
            var added := AddBook(MessageHints(), created.store, Some(alice),
                                 BookInput("Dune", "Frank Herbert", 1965, ["scifi"]));
            && created.result == Ok(alice)
            && Login(created.store, "alice", Password, sign) == Ok(Token(sign(Claims("alice", 0))))
            && added.result == Ok(BookDetails("Dune", AuthorDetails("Frank Herbert", None, 1, 1), 1965, ["scifi"], 2))
            && added.events == [BookAdded(Book(2, "Dune", 1965, ["scifi"], 1))]
  {
    var s0 := Store([], [], [], 0);
    var created := CreateUser(MessageHints(), s0, "alice", "scifi");
    var args := BookInput("Dune", "Frank Herbert", 1965, ["scifi"]);
    var alice := User(0, "alice", "scifi");
    assert UserNamed(created.store, "alice") == Some(0);
    assert AuthorNamed(created.store, "Frank Herbert") == None;
    var added := AddBook(MessageHints(), created.store, Some(alice), args);
    assert added.store.books == [Book(2, "Dune", 1965, ["scifi"], 1)];
    assert Filter(added.store.books, WrittenBy(1)) == added.store.books;
  }

  /** A second request repeating the title is refused without adding a
      book, yet a new author name given with it is stored. */
  lemma DuplicateScenario(u: User)
    ensures var s := Store([Author(0, "Frank Herbert", None)], [Book(1, "Dune", 1965, ["scifi"], 0)], [], 2);
            var r := AddBook(MessageHints(), s, Some(u), BookInput("Dune", "Brian Herbert", 2000, []));
            && r.result == Err(DuplicateTitle("Dune"))
            && r.store.books == s.books
            && r.store.authors == s.authors + [Author(2, "Brian Herbert", None)]
  {
    var s := Store([Author(0, "Frank Herbert", None)], [Book(1, "Dune", 1965, ["scifi"], 0)], [], 2);
    assert BookTitled(s, "Dune") == Some(0);
    assert AuthorNamed(s, "Brian Herbert") == None;
  }
}
