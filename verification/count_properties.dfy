/** How the per-author `bookCount`s relate to the total `bookCount`: in a
    valid store every book is counted for exactly one author. */
module CountProperties {
  import opened Seqs
  import opened Database
  import opened Queries

  /** The sum of the `bookCount` column of an author listing. */
  ghost function SumCounts(rows: seq<AuthorSummary>): nat {
    if |rows| == 0 then 0 else rows[0].bookCount + SumCounts(rows[1..])
  }

  /** For each author in turn, the number of books that reference it. */
  ghost function Tally(authors: seq<Author>, books: seq<Book>): nat {
    if |authors| == 0 then 0
    else |Filter(books, WrittenBy(authors[0].id))| + Tally(authors[1..], books)
  }

  /** How many of `authors` carry identifier `id`. */
  ghost function Occurrences(authors: seq<Author>, id: nat): nat {
    if |authors| == 0 then 0
    else (if authors[0].id == id then 1 else 0) + Occurrences(authors[1..], id)
  }

  ghost predicate DistinctIds(authors: seq<Author>) {
    forall i, j :: 0 <= i < j < |authors| ==> authors[i].id != authors[j].id
  }

  lemma {:induction false} SumCountsIsTally(rows: seq<AuthorSummary>, authors: seq<Author>, books: seq<Book>)
    requires |rows| == |authors|
    requires forall i :: 0 <= i < |rows| ==> rows[i].bookCount == |Filter(books, WrittenBy(authors[i].id))|
    ensures SumCounts(rows) == Tally(authors, books)
    decreases |rows|
  {
    if |rows| != 0 {
      SumCountsIsTally(rows[1..], authors[1..], books);
    }
  }

  /** One more book adds one to the tally of each author it references. */
  lemma {:induction false} TallySnoc(authors: seq<Author>, books: seq<Book>, b: Book)
    ensures Tally(authors, books + [b]) == Tally(authors, books) + Occurrences(authors, b.author)
    decreases |authors|
  {
    if |authors| != 0 {
      FilterSnoc(books, b, WrittenBy(authors[0].id));
      TallySnoc(authors[1..], books, b);
    }
  }

  lemma {:induction false} OccurrencesAbsent(authors: seq<Author>, id: nat)
    requires forall j :: 0 <= j < |authors| ==> authors[j].id != id
    ensures Occurrences(authors, id) == 0
    decreases |authors|
  {
    if |authors| != 0 {
      OccurrencesAbsent(authors[1..], id);
    }
  }

  /** Distinct identifiers: a present identifier occurs exactly once. */
  lemma {:induction false} OccurrencesUnique(authors: seq<Author>, id: nat)
    requires DistinctIds(authors)
    requires exists j :: 0 <= j < |authors| && authors[j].id == id
    ensures Occurrences(authors, id) == 1
    decreases |authors|
  {
    if authors[0].id == id {
      OccurrencesAbsent(authors[1..], id);
    } else {
      var j :| 0 <= j < |authors| && authors[j].id == id;
      assert authors[1..][j - 1].id == id;
      OccurrencesUnique(authors[1..], id);
    }
  }

  /** When every book references exactly one of the authors, the tally
      counts every book once. */
  lemma {:induction false} TallyCountsEveryBook(authors: seq<Author>, books: seq<Book>)
    requires DistinctIds(authors)
    requires forall b :: b in books ==> exists j :: 0 <= j < |authors| && authors[j].id == b.author
    ensures Tally(authors, books) == |books|
    decreases |books|
  {
    if |books| == 0 {
      forall i | 0 <= i < |authors|
        ensures Filter(books, WrittenBy(authors[i].id)) == []
      {
      }
      TallyEmpty(authors, books);
    } else {
      var n := |books| - 1;
      assert books[..n] + [books[n]] == books;
      assert forall b :: b in books[..n] ==> b in books;
      TallyCountsEveryBook(authors, books[..n]);
      TallySnoc(authors, books[..n], books[n]);
      assert books[n] in books;
      OccurrencesUnique(authors, books[n].author);
    }
  }

  lemma {:induction false} TallyEmpty(authors: seq<Author>, books: seq<Book>)
    requires |books| == 0
    ensures Tally(authors, books) == 0
    decreases |authors|
  {
    if |authors| != 0 {
      TallyEmpty(authors[1..], books);
    }
  }

  /** In a valid store the `bookCount`s that `allAuthors` reports add up to
      the total `bookCount`. */
  lemma AuthorCountsSumToBookCount(s: Store)
    requires Valid(s)
    ensures SumCounts(AllAuthors(s)) == BookCount(s)
  {
    var rows := AllAuthors(s);
    forall i | 0 <= i < |rows|
      ensures rows[i].bookCount == |Filter(s.books, WrittenBy(s.authors[i].id))|
    {
      FilterCount(s.books, WrittenBy(s.authors[i].id));
    }
    SumCountsIsTally(rows, s.authors, s.books);
    TallyCountsEveryBook(s.authors, s.books);
  }
}
