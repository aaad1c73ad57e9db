/** The read-only resolvers under `Query`: counts, the filtered and joined
    book listing, the author listing and the current user. */
module Queries {
  import opened Wrappers
  import opened Seqs
  import opened Database

  /** The `AuthorDetails` attached to a listed book. */
  datatype AuthorDetails = AuthorDetails(name: string, born: Option<int>, id: nat, bookCount: nat)

  /** A book joined with its author, as `allBooks` and `addBook` return it. */
  datatype BookDetails = BookDetails(
    title: string, author: AuthorDetails, published: int, genres: seq<string>, id: nat)

  /** An entry of `allAuthors`: no identifier, a derived book count. */
  datatype AuthorSummary = AuthorSummary(name: string, born: Option<int>, bookCount: nat)

  /** The optional arguments of `allBooks`. */
  datatype BookFilter = BookFilter(author: Option<string>, genre: Option<string>)

  /** JavaScript truthiness of an optional string argument: a missing
      argument and the empty string both count as absent. */
  predicate Given(arg: Option<string>) {
    arg.Some? && arg.value != ""
  }

  /** `allBooks` dereferences the author it looks up by name without a
      guard, so a given author argument must name a stored author. */
  predicate AuthorArgResolves(s: Store, f: BookFilter) {
    Given(f.author) ==> AuthorNamed(s, f.author.value).Some?
  }

  function BookCount(s: Store): nat {
    |s.books|
  }

  function AuthorCount(s: Store): nat {
    |s.authors|
  }

  /** `me`: the user the request context carries, if any. */
  function Me(currentUser: Option<User>): Option<User> {
    currentUser
  }

  /** The details of book `b` joined with author `a`, given `a`'s count. */
  function Details(a: Author, b: Book, count: nat): BookDetails {
    BookDetails(b.title, AuthorDetails(a.name, a.born, a.id, count), b.published, b.genres, b.id)
  }

  /** A book joined with the first author carrying its author reference,
      with that author's book count recomputed over the whole store. */
  function Join(s: Store, b: Book): (r: BookDetails)
    requires HasAuthor(s, b.author)
    ensures r.title == b.title && r.published == b.published && r.genres == b.genres && r.id == b.id
    ensures r.author.id == b.author
    ensures AuthorWithId(s, b.author).Some?
    ensures var j := AuthorWithId(s, b.author).value;
            && s.authors[j].id == b.author && (forall i :: 0 <= i < j ==> s.authors[i].id != b.author)
            && r.author.name == s.authors[j].name && r.author.born == s.authors[j].born
    ensures r.author.bookCount == NumberWhere(s.books, WrittenBy(b.author))
  {
    var a := s.authors[AuthorWithId(s, b.author).value];
    Details(a, b, BookCountOf(s, a.id))
  }

  /** The filtering step of `allBooks`, branch by branch as the resolver
      takes them: genre then author, author alone, genre alone, or none. */
  function SelectBooks(s: Store, f: BookFilter): (r: seq<Book>)
    requires AuthorArgResolves(s, f)
    ensures forall k :: 0 <= k < |r| ==> r[k] in s.books
  {
    if Given(f.author) && Given(f.genre) then
      var id := s.authors[AuthorNamed(s, f.author.value).value].id;
      Filter(Filter(s.books, HasGenre(f.genre.value)), WrittenBy(id))
    else if Given(f.author) then
      var id := s.authors[AuthorNamed(s, f.author.value).value].id;
      Filter(s.books, WrittenBy(id))
    else if Given(f.genre) then
      Filter(s.books, HasGenre(f.genre.value))
    else
      s.books
  }

  function AllBooks(s: Store, f: BookFilter): (r: seq<BookDetails>)
    requires RefsResolve(s) && AuthorArgResolves(s, f)
    ensures |r| <= |s.books|
  {
    var books := SelectBooks(s, f);
    seq(|books|, k requires 0 <= k < |books| => Join(s, books[k]))
  }

  function AllAuthors(s: Store): (r: seq<AuthorSummary>)
    ensures |r| == |s.authors|
    ensures forall i :: 0 <= i < |r| ==>
              && r[i].name == s.authors[i].name && r[i].born == s.authors[i].born
              && r[i].bookCount == NumberWhere(s.books, WrittenBy(s.authors[i].id))
  {
    seq(|s.authors|, i requires 0 <= i < |s.authors| =>
      AuthorSummary(s.authors[i].name, s.authors[i].born, BookCountOf(s, s.authors[i].id)))
  }

  /** What a book must satisfy to be listed, read off the arguments. */
  ghost predicate Wanted(s: Store, f: BookFilter, b: Book)
    requires AuthorArgResolves(s, f)
  {
    && (Given(f.genre) ==> f.genre.value in b.genres)
    && (Given(f.author) ==> b.author == s.authors[AuthorNamed(s, f.author.value).value].id)
  }

  /** The same condition as a total predicate on books, for `Filter`. */
  function Criterion(genre: Option<string>, authorId: Option<nat>): Book -> bool {
    (b: Book) => (genre.Some? ==> genre.value in b.genres) && (authorId.Some? ==> b.author == authorId.value)
  }

  function CriterionOf(s: Store, f: BookFilter): Book -> bool
    requires AuthorArgResolves(s, f)
  {
    Criterion(
      if Given(f.genre) then Some(f.genre.value) else None,
      if Given(f.author) then Some(s.authors[AuthorNamed(s, f.author.value).value].id) else None)
  }

  /** Whatever branch the resolver takes, its filtering is a single filter
      by the criterion the arguments describe. */
  lemma SelectBooksIsFilter(s: Store, f: BookFilter)
    requires AuthorArgResolves(s, f)
    ensures SelectBooks(s, f) == Filter(s.books, CriterionOf(s, f))
  {
    var c := CriterionOf(s, f);
    if Given(f.author) && Given(f.genre) {
      var id := s.authors[AuthorNamed(s, f.author.value).value].id;
      FilterFilter(s.books, HasGenre(f.genre.value), WrittenBy(id));
      FilterCongruent(s.books, Both(HasGenre(f.genre.value), WrittenBy(id)), c);
    } else if Given(f.author) {
      var id := s.authors[AuthorNamed(s, f.author.value).value].id;
      FilterCongruent(s.books, WrittenBy(id), c);
    } else if Given(f.genre) {
      FilterCongruent(s.books, HasGenre(f.genre.value), c);
    } else {
      FilterKeepsAll(s.books, c);
    }
  }

  /** `allBooks` lists, in store order, the joined details of exactly the
      books that match its arguments: `idx` holds their positions. */
  lemma AllBooksSelects(s: Store, f: BookFilter) returns (idx: seq<nat>)
    requires RefsResolve(s) && AuthorArgResolves(s, f)
    ensures forall k, l :: 0 <= k < l < |idx| ==> idx[k] < idx[l]
    ensures forall k :: 0 <= k < |idx| ==> idx[k] < |s.books|
    ensures forall i: nat :: i < |s.books| ==> (i in idx <==> Wanted(s, f, s.books[i]))
    ensures |AllBooks(s, f)| == |idx|
    ensures forall k :: 0 <= k < |idx| ==> AllBooks(s, f)[k] == Join(s, s.books[idx[k]])
  {
    idx := SelectedPositions(s, f);
    AllBooksJoinsSelection(s, f);
  }

  /** `allBooks` joins each selected book, in order. */
  lemma AllBooksJoinsSelection(s: Store, f: BookFilter)
    requires RefsResolve(s) && AuthorArgResolves(s, f)
    ensures |AllBooks(s, f)| == |SelectBooks(s, f)|
    ensures forall k :: 0 <= k < |SelectBooks(s, f)| ==> AllBooks(s, f)[k] == Join(s, SelectBooks(s, f)[k])
  {
  }

  /** The positions the filtering step keeps are exactly the wanted ones. */
  lemma SelectedPositions(s: Store, f: BookFilter) returns (idx: seq<nat>)
    requires AuthorArgResolves(s, f)
    ensures forall k, l :: 0 <= k < l < |idx| ==> idx[k] < idx[l]
    ensures forall k :: 0 <= k < |idx| ==> idx[k] < |s.books|
    ensures forall i: nat :: i < |s.books| ==> (i in idx <==> Wanted(s, f, s.books[i]))
    ensures |SelectBooks(s, f)| == |idx|
    ensures forall k :: 0 <= k < |idx| ==> SelectBooks(s, f)[k] == s.books[idx[k]]
  {
    var c := CriterionOf(s, f);
    SelectBooksIsFilter(s, f);
    idx := FilterPositions(s.books, c);
    forall i: nat | i < |s.books|
      ensures c(s.books[i]) == Wanted(s, f, s.books[i])
    {
      CriterionIsWanted(s, f, s.books[i]);
    }
  }

  lemma CriterionIsWanted(s: Store, f: BookFilter, b: Book)
    requires AuthorArgResolves(s, f)
    ensures CriterionOf(s, f)(b) == Wanted(s, f, b)
  {
  }

  /** With neither argument, `allBooks` lists every book in store order. */
  lemma AllBooksUnfiltered(s: Store)
    requires RefsResolve(s)
    ensures |AllBooks(s, BookFilter(None, None))| == |s.books|
    ensures forall k :: 0 <= k < |s.books| ==> AllBooks(s, BookFilter(None, None))[k] == Join(s, s.books[k])
  {
  }

  /** The counts agree with the listings they summarise. */
  lemma CountsMatchListings(s: Store)
    requires RefsResolve(s)
    ensures BookCount(s) == |AllBooks(s, BookFilter(None, None))|
    ensures AuthorCount(s) == |AllAuthors(s)|
  {
  }

  /** A book appears in an author-filtered listing exactly as many times as
      that author's `bookCount` says. */
  lemma AuthorListingMatchesCount(s: Store, name: string)
    requires RefsResolve(s) && AuthorNamed(s, name).Some? && name != ""
    ensures |AllBooks(s, BookFilter(Some(name), None))|
            == NumberWhere(s.books, WrittenBy(s.authors[AuthorNamed(s, name).value].id))
  {
    FilterCount(s.books, WrittenBy(s.authors[AuthorNamed(s, name).value].id));
  }
}
