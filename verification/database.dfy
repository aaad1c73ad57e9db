/** The document database as an immutable value: the three collections the
    resolvers read and write, in natural (insertion) order, plus the source
    of fresh object identifiers. */
module Database {
  import opened Wrappers
  import opened Seqs

  datatype Author = Author(id: nat, name: string, born: Option<int>)

  /** `author` holds the identifier of the book's author. */
  datatype Book = Book(id: nat, title: string, published: int, genres: seq<string>, author: nat)

  datatype User = User(id: nat, username: string, favoriteGenre: string)

  /** Every stored record has an identifier below `nextId`, the identifier
      the next new document receives. */
  datatype Store = Store(authors: seq<Author>, books: seq<Book>, users: seq<User>, nextId: nat)

  /** The schema validation run by Mongoose's `save()`. The schemas are not
      part of this model, so each rule is a parameter; it may consult the
      collections (unique indexes). */
  datatype Validation = Validation(
    acceptsAuthor: (Store, Author) -> bool,
    acceptsBook: (Store, Book) -> bool,
    acceptsUser: (Store, User) -> bool)

  // Record predicates used by the queries below.

  function NameIs(name: string): Author -> bool { (a: Author) => a.name == name }

  function IdIs(id: nat): Author -> bool { (a: Author) => a.id == id }

  function TitleIs(title: string): Book -> bool { (b: Book) => b.title == title }

  function WrittenBy(id: nat): Book -> bool { (b: Book) => b.author == id }

  function HasGenre(genre: string): Book -> bool { (b: Book) => genre in b.genres }

  function UsernameIs(username: string): User -> bool { (u: User) => u.username == username }

  // `findOne`-style lookups: the position of the first matching record.

  function AuthorNamed(s: Store, name: string): Option<nat> {
    FirstIndex(s.authors, NameIs(name))
  }

  function AuthorWithId(s: Store, id: nat): Option<nat> {
    FirstIndex(s.authors, IdIs(id))
  }

  function BookTitled(s: Store, title: string): Option<nat> {
    FirstIndex(s.books, TitleIs(title))
  }

  function UserNamed(s: Store, username: string): Option<nat> {
    FirstIndex(s.users, UsernameIs(username))
  }

  /** Some stored author has identifier `id`. */
  ghost predicate HasAuthor(s: Store, id: nat) {
    exists j :: 0 <= j < |s.authors| && s.authors[j].id == id
  }

  /** Every book's author reference resolves to a stored author. */
  ghost predicate RefsResolve(s: Store) {
    forall b :: b in s.books ==> HasAuthor(s, b.author)
  }

  /** The derived `bookCount` of an author: the length of the list of books
      whose author reference is `id`. */
  function BookCountOf(s: Store, id: nat): (n: nat)
    ensures n == NumberWhere(s.books, WrittenBy(id))
  {
    FilterCount(s.books, WrittenBy(id));
    |Filter(s.books, WrittenBy(id))|
  }

  /** Author identifiers lie below `next` and are distinct, and author
      names are unique. */
  ghost predicate AuthorsWellFormed(authors: seq<Author>, next: nat) {
    && (forall i :: 0 <= i < |authors| ==> authors[i].id < next)
    && (forall i, j :: 0 <= i < j < |authors| ==>
          authors[i].id != authors[j].id && authors[i].name != authors[j].name)
  }

  /** Book identifiers lie below `next` and are distinct, and titles are
      unique. */
  ghost predicate BooksWellFormed(books: seq<Book>, next: nat) {
    && (forall i :: 0 <= i < |books| ==> books[i].id < next)
    && (forall i, j :: 0 <= i < j < |books| ==>
          books[i].id != books[j].id && books[i].title != books[j].title)
  }

  /** User identifiers lie below `next` and are distinct. */
  ghost predicate UsersWellFormed(users: seq<User>, next: nat) {
    && (forall i :: 0 <= i < |users| ==> users[i].id < next)
    && (forall i, j :: 0 <= i < j < |users| ==> users[i].id != users[j].id)
  }

  /** The consistency the resolvers maintain: fresh identifiers lie above
      every stored one, identifiers are distinct within a collection, author
      names and book titles are unique, and book references resolve. */
  ghost predicate Valid(s: Store) {
    && AuthorsWellFormed(s.authors, s.nextId)
    && BooksWellFormed(s.books, s.nextId)
    && UsersWellFormed(s.users, s.nextId)
    && RefsResolve(s)
  }

  /** Each collection stays well formed when the identifier bound rises. */
  lemma WellFormedBump(s: Store)
    requires Valid(s)
    ensures AuthorsWellFormed(s.authors, s.nextId + 1)
    ensures BooksWellFormed(s.books, s.nextId + 1)
    ensures UsersWellFormed(s.users, s.nextId + 1)
  {
  }

  /** Appending an author with the next identifier and an unused name. */
  lemma AuthorsWellFormedSnoc(authors: seq<Author>, next: nat, a: Author)
    requires AuthorsWellFormed(authors, next) && a.id == next
    requires forall j :: 0 <= j < |authors| ==> authors[j].name != a.name
    ensures AuthorsWellFormed(authors + [a], next + 1)
  {
    var xs := authors + [a];
    forall i, j | 0 <= i < j < |xs|
      ensures xs[i].id != xs[j].id && xs[i].name != xs[j].name
    {
      assert xs[i] == authors[i];
      if j < |authors| {
        assert xs[j] == authors[j];
      }
    }
  }

  /** Appending a book with the next identifier and an unused title. */
  lemma BooksWellFormedSnoc(books: seq<Book>, next: nat, b: Book)
    requires BooksWellFormed(books, next) && b.id == next
    requires forall j :: 0 <= j < |books| ==> books[j].title != b.title
    ensures BooksWellFormed(books + [b], next + 1)
  {
    var xs := books + [b];
    forall i, j | 0 <= i < j < |xs|
      ensures xs[i].id != xs[j].id && xs[i].title != xs[j].title
    {
      assert xs[i] == books[i];
      if j < |books| {
        assert xs[j] == books[j];
      }
    }
  }

  /** Appending a user with the next identifier. */
  lemma UsersWellFormedSnoc(users: seq<User>, next: nat, u: User)
    requires UsersWellFormed(users, next) && u.id == next
    ensures UsersWellFormed(users + [u], next + 1)
  {
    var xs := users + [u];
    forall i, j | 0 <= i < j < |xs|
      ensures xs[i].id != xs[j].id
    {
      assert xs[i] == users[i];
      if j < |users| {
        assert xs[j] == users[j];
      }
    }
  }

  /** The store after saving a new author, which takes the next identifier. */
  function WithAuthor(s: Store, a: Author): Store {
    s.(authors := s.authors + [a], nextId := s.nextId + 1)
  }

  /** The store after saving a new book, which takes the next identifier. */
  function WithBook(s: Store, b: Book): Store {
    s.(books := s.books + [b], nextId := s.nextId + 1)
  }

  /** The store after saving a new user, which takes the next identifier. */
  function WithUser(s: Store, u: User): Store {
    s.(users := s.users + [u], nextId := s.nextId + 1)
  }

  /** In a valid store, an author's position is found by its identifier. */
  lemma AuthorWithIdFinds(s: Store, i: nat)
    requires Valid(s) && i < |s.authors|
    ensures AuthorWithId(s, s.authors[i].id) == Some(i)
  {
  }

  /** In a valid store, no book refers to the next fresh identifier, so an
      author created with it starts with no books. */
  lemma {:induction false} FreshIdHasNoBooks(s: Store)
    requires Valid(s)
    ensures BookCountOf(s, s.nextId) == 0
  {
    forall k | 0 <= k < |s.books|
      ensures !WrittenBy(s.nextId)(s.books[k])
    {
      assert s.books[k] in s.books;
      var j :| 0 <= j < |s.authors| && s.authors[j].id == s.books[k].author;
    }
    FilterKeepsNone(s.books, WrittenBy(s.nextId));
  }

  /** Adding a book written by `id` raises that author's count by one. */
  lemma BookCountAfterInsert(s: Store, b: Book)
    ensures BookCountOf(WithBook(s, b), b.author) == BookCountOf(s, b.author) + 1
  {
    FilterSnoc(s.books, b, WrittenBy(b.author));
  }
}
