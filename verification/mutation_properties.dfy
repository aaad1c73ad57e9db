/** Properties of the mutation resolvers: the order of `addBook`'s guards,
    what each failure leaves behind, what a success adds, and the store
    invariant every mutation keeps. */
module MutationProperties {
  import opened Wrappers
  import opened Seqs
  import opened Errors
  import opened Database
  import opened Queries
  import opened Mutations

  /** Saving a new author under a name no author has keeps the store valid. */
  lemma WithNewAuthorValid(s: Store, name: string)
    requires Valid(s) && AuthorNamed(s, name).None?
    ensures Valid(WithAuthor(s, NewAuthor(s, name)))
  {
    var s' := WithAuthor(s, NewAuthor(s, name));
    WellFormedBump(s);
    AuthorsWellFormedSnoc(s.authors, s.nextId, NewAuthor(s, name));
    forall b | b in s'.books
      ensures HasAuthor(s', b.author)
    {
      var j :| 0 <= j < |s.authors| && s.authors[j].id == b.author;
      assert s'.authors[j] == s.authors[j];
    }
  }

  /** Saving a new book with the next identifier, an untaken title and a
      resolving author keeps the store valid. */
  lemma WithNewBookValid(s: Store, b: Book)
    requires Valid(s) && b.id == s.nextId && BookTitled(s, b.title).None? && HasAuthor(s, b.author)
    ensures Valid(WithBook(s, b))
  {
    var s' := WithBook(s, b);
    WellFormedBump(s);
    BooksWellFormedSnoc(s.books, s.nextId, b);
    assert forall x :: x in s'.books ==> x in s.books || x == b;
  }

  /** The second guard: a missing author that fails validation is reported
      before, and regardless of, a duplicate title; nothing is saved. */
  lemma AddBookRejectsAuthorFirst(v: Validation, s: Store, u: User, args: BookInput)
    requires AuthorNamed(s, args.author).None? && !v.acceptsAuthor(s, NewAuthor(s, args.author))
    ensures AddBook(v, s, Some(u), args) == Response(Err(AuthorNameRejected(args.author)), s, [])
  {
  }

  /** The third guard: a duplicate title is refused and no book is added,
      but a missing author that passes validation has already been saved. */
  lemma AddBookDuplicateKeepsNewAuthor(v: Validation, s: Store, u: User, args: BookInput)
    requires BookTitled(s, args.title).Some?
    requires AuthorNamed(s, args.author).Some? || v.acceptsAuthor(s, NewAuthor(s, args.author))
    ensures var r := AddBook(v, s, Some(u), args);
            && r.result == Err(DuplicateTitle(args.title))
            && r.events == []
            && r.store.books == s.books
            && (AuthorNamed(s, args.author).Some? ==> r.store == s)
            && (AuthorNamed(s, args.author).None? ==>
                  r.store.authors == s.authors + [Author(s.nextId, args.author, None)])
  {
  }

  /** The fourth guard: a book that fails validation is refused and not
      saved, but a missing author that passed validation stays stored. */
  lemma AddBookRejectsBook(v: Validation, s: Store, u: User, args: BookInput)
    requires AuthorNamed(s, args.author).Some? || v.acceptsAuthor(s, NewAuthor(s, args.author))
    requires BookTitled(s, args.title).None?
    requires var s1 := AuthorSaved(s, args.author);
             var author := SavedAuthor(s, args.author);
             !v.acceptsBook(s1, Book(s1.nextId, args.title, args.published, args.genres, author.id))
    ensures AddBook(v, s, Some(u), args) == Response(Err(BookRejected), AuthorSaved(s, args.author), [])
  {
  }

  /** `addBook` succeeds exactly when every guard passes. */
  lemma AddBookSucceedsIff(v: Validation, s: Store, currentUser: Option<User>, args: BookInput)
    ensures var found := AuthorNamed(s, args.author);
            var s1 := AuthorSaved(s, args.author);
            var author := SavedAuthor(s, args.author);
            AddBook(v, s, currentUser, args).result.Ok? <==>
              && currentUser.Some?
              && (found.Some? || v.acceptsAuthor(s, NewAuthor(s, args.author)))
              && BookTitled(s, args.title).None?
              && v.acceptsBook(s1, Book(s1.nextId, args.title, args.published, args.genres, author.id))
  {
  }

  /** The shape of a successful `addBook`: the book built from the
      arguments and the saved author, the store with both saved, and the
      one event. */
  lemma AddBookOk(v: Validation, s: Store, currentUser: Option<User>, args: BookInput)
    requires AddBook(v, s, currentUser, args).result.Ok?
    ensures var a := SavedAuthor(s, args.author);
            var s1 := AuthorSaved(s, args.author);
            var b := Book(s1.nextId, args.title, args.published, args.genres, a.id);
            AddBook(v, s, currentUser, args)
              == Response(Ok(Details(a, b, BookCountOf(WithBook(s1, b), a.id))), WithBook(s1, b), [BookAdded(b)])
  {
  }

  /** After finding or saving an author, the name finds that author. */
  lemma AuthorSavedFinds(s: Store, name: string)
    ensures AuthorNamed(AuthorSaved(s, name), name).Some?
    ensures var s1 := AuthorSaved(s, name);
            s1.authors[AuthorNamed(s1, name).value] == SavedAuthor(s, name)
  {
    if AuthorNamed(s, name).None? {
      FirstIndexSnoc(s.authors, NewAuthor(s, name), NameIs(name));
    }
  }

  /** A successful `addBook` appends one book built from the arguments,
      referencing the author now stored under the given name, publishes it,
      and reports that author's book count after the insert. */
  lemma AddBookInserts(v: Validation, s: Store, currentUser: Option<User>, args: BookInput)
    requires AddBook(v, s, currentUser, args).result.Ok?
    ensures var r := AddBook(v, s, currentUser, args);
            var b := r.events[0].book;
            && r.events == [BookAdded(b)]
            && r.store.books == s.books + [b]
            && b.title == args.title && b.published == args.published && b.genres == args.genres
            && b.id == r.store.nextId - 1 && b.id >= s.nextId
            && AuthorNamed(r.store, args.author).Some?
            && r.store.authors[AuthorNamed(r.store, args.author).value].id == b.author
            && r.result.value.title == args.title && r.result.value.id == b.id
            && r.result.value.author.name == args.author && r.result.value.author.id == b.author
            && r.result.value.author.bookCount == NumberWhere(r.store.books, WrittenBy(b.author))
            && r.result.value.author.bookCount == BookCountOf(s, b.author) + 1
  {
    AddBookOk(v, s, currentUser, args);
    AuthorSavedFinds(s, args.author);
    var a := SavedAuthor(s, args.author);
    var s1 := AuthorSaved(s, args.author);
    var b := Book(s1.nextId, args.title, args.published, args.genres, a.id);
    assert s1.books == s.books && s1.nextId >= s.nextId;
    assert WithBook(s1, b).authors == s1.authors;
    BookCountAfterInsert(s1, b);
  }

  /** An author created by a successful `addBook` in a valid store has
      exactly the one new book. */
  lemma AddBookNewAuthorHasOneBook(v: Validation, s: Store, u: User, args: BookInput)
    requires Valid(s) && AuthorNamed(s, args.author).None?
    requires AddBook(v, s, Some(u), args).result.Ok?
    ensures var d := AddBook(v, s, Some(u), args).result.value;
            d.author == AuthorDetails(args.author, None, s.nextId, 1)
  {
    AddBookInserts(v, s, Some(u), args);
    FreshIdHasNoBooks(s);
  }

  /** Every outcome of `addBook` on a valid store leaves a valid store. */
  lemma AddBookPreservesValid(v: Validation, s: Store, currentUser: Option<User>, args: BookInput)
    requires Valid(s)
    ensures Valid(AddBook(v, s, currentUser, args).store)
  {
    var r := AddBook(v, s, currentUser, args);
    AuthorSavedValid(s, args.author);
    if r.result.Ok? {
      AddBookOk(v, s, currentUser, args);
      var s1 := AuthorSaved(s, args.author);
      WithNewBookValid(s1, Book(s1.nextId, args.title, args.published, args.genres, SavedAuthor(s, args.author).id));
    }
  }

  /** Finding or saving the named author keeps the store valid, and the
      author's identifier then resolves. */
  lemma AuthorSavedValid(s: Store, name: string)
    requires Valid(s)
    ensures Valid(AuthorSaved(s, name))
    ensures HasAuthor(AuthorSaved(s, name), SavedAuthor(s, name).id)
  {
    if AuthorNamed(s, name).None? {
      WithNewAuthorValid(s, name);
      assert AuthorSaved(s, name).authors[|s.authors|].id == s.nextId;
    }
  }

  /** A successful `addBook` answers with the details of the new book joined
      with the author now stored under the given name. */
  lemma AddBookAnswersDetails(v: Validation, s: Store, currentUser: Option<User>, args: BookInput)
    requires AddBook(v, s, currentUser, args).result.Ok?
    ensures var r := AddBook(v, s, currentUser, args);
            && AuthorNamed(r.store, args.author).Some?
            && r.result.value == Details(r.store.authors[AuthorNamed(r.store, args.author).value],
                                         r.events[0].book, BookCountOf(r.store, r.events[0].book.author))
  {
    AddBookOk(v, s, currentUser, args);
    AuthorSavedFinds(s, args.author);
    var s1 := AuthorSaved(s, args.author);
    assert WithBook(s1, AddBook(v, s, currentUser, args).events[0].book).authors == s1.authors;
  }

  /** What `addBook` returns is what `allBooks` lists for the new book
      afterwards. */
  lemma AddBookAgreesWithListing(v: Validation, s: Store, currentUser: Option<User>, args: BookInput)
    requires Valid(s) && AddBook(v, s, currentUser, args).result.Ok?
    ensures Valid(AddBook(v, s, currentUser, args).store)
    ensures var r := AddBook(v, s, currentUser, args);
            var listing := AllBooks(r.store, BookFilter(None, None));
            |listing| == |s.books| + 1 && listing[|s.books|] == r.result.value
  {
    var r := AddBook(v, s, currentUser, args);
    AddBookPreservesValid(v, s, currentUser, args);
    AddBookAnswersDetails(v, s, currentUser, args);
    var b := r.events[0].book;
    assert r.store.books == s.books + [b];
    var i := AuthorNamed(r.store, args.author).value;
    assert r.store.authors[i].id == b.author;
    AuthorWithIdFinds(r.store, i);
    var listing := AllBooks(r.store, BookFilter(None, None));
    assert listing[|s.books|] == Join(r.store, b);
  }

  /** `editAuthor` on a valid store leaves a valid store. */
  lemma EditAuthorPreservesValid(s: Store, currentUser: Option<User>, name: string, born: int)
    requires Valid(s)
    ensures Valid(EditAuthor(s, currentUser, name, born).store)
  {
    var r := EditAuthor(s, currentUser, name, born);
    if r.store != s {
      var i := AuthorNamed(s, name).value;
      forall b | b in r.store.books
        ensures HasAuthor(r.store, b.author)
      {
        var j :| 0 <= j < |s.authors| && s.authors[j].id == b.author;
        assert r.store.authors[j].id == b.author;
      }
    }
  }

  /** Repeating an `editAuthor` call changes nothing further. */
  lemma EditAuthorIdempotent(s: Store, u: User, name: string, born: int)
    ensures var r := EditAuthor(s, Some(u), name, born);
            EditAuthor(r.store, Some(u), name, born) == r
  {
    var r := EditAuthor(s, Some(u), name, born);
    if AuthorNamed(s, name).Some? {
      var i := AuthorNamed(s, name).value;
      assert forall j :: 0 <= j < |s.authors| ==> r.store.authors[j].name == s.authors[j].name;
      assert AuthorNamed(r.store, name) == Some(i);
      assert r.store.authors[i := r.store.authors[i]] == r.store.authors;
    }
  }

  /** After `editAuthor`, `allAuthors` shows the new birth year for that
      author and every entry, book counts included, is otherwise unchanged. */
  lemma EditAuthorSeenByAllAuthors(s: Store, u: User, name: string, born: int)
    requires AuthorNamed(s, name).Some?
    ensures var i := AuthorNamed(s, name).value;
            var before := AllAuthors(s);
            var after := AllAuthors(EditAuthor(s, Some(u), name, born).store);
            && |after| == |before|
            && after[i] == before[i].(born := Some(born))
            && (forall j :: 0 <= j < |before| && j != i ==> after[j] == before[j])
  {
  }

  /** Saving a new user with the next identifier keeps the store valid. */
  lemma WithNewUserValid(s: Store, u: User)
    requires Valid(s) && u.id == s.nextId
    ensures Valid(WithUser(s, u))
  {
    WellFormedBump(s);
    UsersWellFormedSnoc(s.users, s.nextId, u);
  }

  /** `createUser` on a valid store leaves a valid store. */
  lemma CreateUserPreservesValid(v: Validation, s: Store, username: string, favoriteGenre: string)
    requires Valid(s)
    ensures Valid(CreateUser(v, s, username, favoriteGenre).store)
  {
    var r := CreateUser(v, s, username, favoriteGenre);
    if r.result.Ok? {
      WithNewUserValid(s, r.result.value);
    }
  }

  /** A token from `login` verifies back to the user's name and identifier
      under any verifier that inverts the signer. */
  lemma LoginTokenDecodes(s: Store, username: string, sign: Claims -> string, verify: string -> Option<Claims>)
    requires forall c :: verify(sign(c)) == Some(c)
    requires Login(s, username, Password, sign).Ok?
    ensures var i := UserNamed(s, username).value;
            verify(Login(s, username, Password, sign).value.value) == Some(Claims(username, s.users[i].id))
  {
  }

  /** Once `createUser` has saved a user under a fresh name, `login` with
      that name and the password yields that user's token. */
  lemma CreateUserThenLogin(v: Validation, s: Store, username: string, genre: string, sign: Claims -> string)
    requires UserNamed(s, username).None?
    requires CreateUser(v, s, username, genre).result.Ok?
    ensures var s' := CreateUser(v, s, username, genre).store;
            Login(s', username, Password, sign) == Ok(Token(sign(Claims(username, s.nextId))))
  {
    FirstIndexSnoc(s.users, User(s.nextId, username, genre), UsernameIs(username));
  }

  /** `me` is empty exactly when the mutations that need a login refuse
      with `UNAUTHENTICATED`. */
  lemma MeMatchesLoginGuard(v: Validation, s: Store, currentUser: Option<User>, args: BookInput, name: string, born: int)
    ensures Me(currentUser).None? <==> AddBook(v, s, currentUser, args).result == Err(LogInFirst)
    ensures Me(currentUser).None? <==> EditAuthor(s, currentUser, name, born).result == Err(LogInFirst)
  {
  }
}
