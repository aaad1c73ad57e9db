/** The resolvers under `Mutation`. Each is a pure step from the store, the
    request's current user and the arguments to a result or error, the new
    store, and the events published on the `BOOK_ADDED` topic. */
module Mutations {
  import opened Wrappers
  import opened Seqs
  import opened Errors
  import opened Database
  import opened Queries

  /** A publication on the subscription topic, carrying the saved book. */
  datatype Event = BookAdded(book: Book)

  datatype Response<+T> = Response(result: Result<T>, store: Store, events: seq<Event>)

  /** The arguments of `addBook`; `author` is the author's name. */
  datatype BookInput = BookInput(title: string, author: string, published: int, genres: seq<string>)

  /** What `jwt.sign` is given: the user's name and identifier. */
  datatype Claims = Claims(username: string, id: nat)

  datatype Token = Token(value: string)

  /** The one password `login` accepts. */
  const Password := "secret"

  /** The author document `addBook` creates for a name it does not find. */
  function NewAuthor(s: Store, name: string): Author {
    Author(s.nextId, name, None)
  }

  /** The store once `addBook` has found or saved the named author: unchanged
      when the author exists, otherwise extended by the new author. */
  function AuthorSaved(s: Store, name: string): Store {
    if AuthorNamed(s, name).Some? then s else WithAuthor(s, NewAuthor(s, name))
  }

  /** The author `addBook` attaches the book to: the first one stored under
      the name, or the one it creates. */
  function SavedAuthor(s: Store, name: string): Author {
    match AuthorNamed(s, name)
    case Some(i) => s.authors[i]
    case None => NewAuthor(s, name)
  }

  function AddBook(v: Validation, s: Store, currentUser: Option<User>, args: BookInput): (r: Response<BookDetails>)
    ensures currentUser.None? ==> r == Response(Err(LogInFirst), s, [])
    ensures r.store.users == s.users
    ensures r.result.Err? ==> r.events == [] && r.store.books == s.books
    ensures r.result.Err? ==> r.store == s || r.store == AuthorSaved(s, args.author)
    ensures r.result.Ok? ==> |r.events| == 1 && r.store == WithBook(AuthorSaved(s, args.author), r.events[0].book)
    ensures r.result.Ok? ==> currentUser.Some? && BookTitled(s, args.title).None?
  {
    if currentUser.None? then Response(Err(LogInFirst), s, [])
    else
      var found := AuthorNamed(s, args.author);
      var duplicate := BookTitled(s, args.title).Some?;
      var author := SavedAuthor(s, args.author);
      if found.None? && !v.acceptsAuthor(s, author) then
        Response(Err(AuthorNameRejected(args.author)), s, [])
      else
        var s1 := AuthorSaved(s, args.author);
        if duplicate then Response(Err(DuplicateTitle(args.title)), s1, [])
        else
          var book := Book(s1.nextId, args.title, args.published, args.genres, author.id);
          if !v.acceptsBook(s1, book) then Response(Err(BookRejected), s1, [])
          else
            var s2 := WithBook(s1, book);
            Response(Ok(Details(author, book, BookCountOf(s2, author.id))), s2, [BookAdded(book)])
  }

  /** `editAuthor`: sets the birth year of the first author with the given
      name and returns the updated author, or nothing if there is none. */
  function EditAuthor(s: Store, currentUser: Option<User>, name: string, setBornTo: int): (r: Response<Option<Author>>)
    ensures currentUser.None? ==> r == Response(Err(LogInFirst), s, [])
    ensures r.events == [] && r.result.Ok? == currentUser.Some?
    ensures currentUser.Some? && AuthorNamed(s, name).None? ==> r == Response(Ok(None), s, [])
    ensures currentUser.Some? && AuthorNamed(s, name).Some? ==>
              var i := AuthorNamed(s, name).value;
              && |r.store.authors| == |s.authors|
              && r.result == Ok(Some(r.store.authors[i]))
              && r.store.authors[i] == Author(s.authors[i].id, name, Some(setBornTo))
              && (forall j :: 0 <= j < |s.authors| && j != i ==> r.store.authors[j] == s.authors[j])
              && r.store.books == s.books && r.store.users == s.users && r.store.nextId == s.nextId
  {
    if currentUser.None? then Response(Err(LogInFirst), s, [])
    else
      match AuthorNamed(s, name)
      case None => Response(Ok(None), s, [])
      case Some(i) =>
        var updated := s.authors[i].(born := Some(setBornTo));
        Response(Ok(Some(updated)), s.(authors := s.authors[i := updated]), [])
  }

  /** `createUser`: saves a new user, or reports the validation failure. */
  function CreateUser(v: Validation, s: Store, username: string, favoriteGenre: string): (r: Response<User>)
    ensures r.events == []
    ensures r.result.Ok? <==> v.acceptsUser(s, User(s.nextId, username, favoriteGenre))
    ensures r.result.Err? ==> r.result.error == UserRejected(username) && r.store == s
    ensures r.result.Ok? ==>
              && r.result.value.username == username && r.result.value.favoriteGenre == favoriteGenre
              && r.result.value.id == s.nextId
              && r.store.users == s.users + [r.result.value]
              && r.store.authors == s.authors && r.store.books == s.books
  {
    var user := User(s.nextId, username, favoriteGenre);
    if v.acceptsUser(s, user) then Response(Ok(user), WithUser(s, user), [])
    else Response(Err(UserRejected(username)), s, [])
  }

  /** `login`: a token signed over the user's name and identifier, for a
      stored user name and the one accepted password. */
  function Login(s: Store, username: string, password: string, sign: Claims -> string): (r: Result<Token>)
    ensures r.Ok? <==> UserNamed(s, username).Some? && password == Password
    ensures r.Err? ==> r.error == WrongCredentials
    ensures r.Ok? ==> exists i :: 0 <= i < |s.users| && s.users[i].username == username
                                  && r.value == Token(sign(Claims(username, s.users[i].id)))
    ensures r.Ok? ==> var i := UserNamed(s, username).value;
                      && s.users[i].username == username
                      && (forall k :: 0 <= k < i ==> s.users[k].username != username)
                      && r.value == Token(sign(Claims(username, s.users[i].id)))
  {
    match UserNamed(s, username)
    case None => Err(WrongCredentials)
    case Some(i) =>
      if password != Password then Err(WrongCredentials)
      else Ok(Token(sign(Claims(s.users[i].username, s.users[i].id))))
  }
}
