# Library catalog resolvers, modelled in Dafny

This project models the GraphQL resolvers of a small library-catalog backend
(books, authors, users). The resolvers are the `Query` fields `bookCount`,
`authorCount`, `allBooks`, `allAuthors` and `me`, and the `Mutation` fields
`addBook`, `editAuthor`, `createUser` and `login`. The document database is an
immutable `Store`. It holds three collections in natural (insertion) order,
plus the next fresh object identifier. Each resolver is a pure function of
what it reads: the queries take the store and their arguments, and `me`
takes only the current user. The mutations that read `context.currentUser`
(`addBook` and `editAuthor`) take it as an argument. The mutations that
write (`addBook`, `editAuthor` and `createUser`) return a `Response`: a
value or a `GraphQLError` carrying a `code` (`UNAUTHENTICATED` or
`BAD_USER_INPUT`), the store afterwards, and the events published on the
`BOOK_ADDED` topic. `login` only reads, and returns a token or an error.

Modules:

- `Wrappers`: `Option`.
- `Seqs`: `Filter` (JavaScript `filter`) and `FirstIndex` (`find` / `findOne`). Each comes with a reference characterisation: `FilterPositions` reads the filter at exactly the positions that satisfy the predicate, and `FilterCount` counts those positions as a set.
- `Errors`: the error codes and the resolvers' messages.
- `Database`: the `Author`, `Book`, `User` and `Store` records, the `Validation` parameters standing for Mongoose's `save()` checks, the lookups, the derived `bookCount`, and the store invariant `Valid`.
- `Queries`: the query resolvers and their properties.
- `Mutations`: the mutation resolvers.
- `MutationProperties`: guard order, failures, successes and invariant preservation.
- `CountProperties`: the per-author counts add up to the total.
- `Scenarios`: two concrete request sequences.

Modelling decisions:

- `allBooks` treats an argument as present only when it is truthy in JavaScript, so an empty string counts as absent. `Queries.Given` models this.
- A plain reading of the API says a given author is resolved by exact name. The code does match names exactly, but it skips the author filter altogether when the author argument is the empty string. The model follows the code.
- Mongoose validation is a parameter (`Database.Validation`), one predicate per collection. Each predicate sees the store as well as the record, so unique indexes can be expressed. The scenario uses rules read off the error messages: author names of at least 5 characters and user names of at least 3.
- `jwt.sign` is a parameter `sign: Claims -> string`.
- New documents take `nextId` as their identifier, then `nextId` is incremented. This stands for fresh ObjectIds.

## Model

| member | source | states |
|---|---|---|
| `Queries.CountsMatchListings` | graphql/resolvers.js:13-20 | `bookCount` is the number of stored books, which is also the length of the unfiltered `allBooks`. `authorCount` is the number of stored authors, which is also the length of `allAuthors`. |
| `Queries.AllBooksUnfiltered` | graphql/resolvers.js:36-40 | With neither `author` nor `genre`, `allBooks` lists every book, in store order, each joined with its author. |
| `Queries.AllBooksSelects` | graphql/resolvers.js:21-59 | `allBooks` lists the joined details of exactly the matching books, in increasing store position. A book matches when its `genres` contain a given genre and/or its author reference is the id of the first author with the given name. Only truthy arguments filter. |
| `Queries.SelectBooksIsFilter` | graphql/resolvers.js:25-38 | Each of the four branches is a single order-preserving filter by the criterion the arguments describe. This includes the genre-then-author double filter. |
| `Queries.Join` | graphql/resolvers.js:40-58 | Each listed entry keeps its book's title, published year, genres and id. It carries the name and birth year of the first stored author whose id is the book's author reference. Its `bookCount` is the number of stored books that reference that id. |
| `Queries.AllAuthors` | graphql/resolvers.js:61-74 | `allAuthors` has one entry per stored author, in store order. Each entry has that author's name and birth year, and a `bookCount` equal to the number of books that reference the author's id. |
| `Queries.AuthorListingMatchesCount` | graphql/resolvers.js:32-46 | An author-filtered `allBooks` has exactly as many entries as that author's `bookCount`. |
| `CountProperties.AuthorCountsSumToBookCount` | graphql/resolvers.js:61-74 | In a valid store, the `bookCount`s reported by `allAuthors` sum to `bookCount`. |
| `Database.BookCountOf` | graphql/resolvers.js:66-68 | The derived `bookCount`, which is the length of the filtered list, equals the number of positions of books that reference the author. |
| `Seqs.FilterPositions` | graphql/resolvers.js:28-35 | The array filter keeps the elements at exactly the positions that satisfy the predicate, in order. |
| `Seqs.FirstIndex` | graphql/resolvers.js:25 | The lookup returns the first position whose record matches, or reports that none matches. |
| `Mutations.AddBook` | graphql/resolvers.js:79-149 | No current user gives `UNAUTHENTICATED` with nothing changed. Any failure adds no book, publishes nothing, and leaves either the store unchanged or the store with the named author saved. A success leaves exactly the store with the named author saved (created only if missing) plus one appended book. It publishes exactly that book, and only for an untaken title. |
| `MutationProperties.AddBookRejectsAuthorFirst` | graphql/resolvers.js:88-103 | If the author is missing and fails validation, `addBook` fails with `BAD_USER_INPUT` naming the author, whatever the title. Nothing is saved. |
| `MutationProperties.AddBookDuplicateKeepsNewAuthor` | graphql/resolvers.js:88-114 | A taken title gives `Book is already added` / `BAD_USER_INPUT` and adds no book. If the named author was missing and passes validation, that author is still stored. |
| `MutationProperties.AddBookRejectsBook` | graphql/resolvers.js:116-129 | If the author exists or validates and the title is untaken, but the new book fails validation, `addBook` fails with `Saving book failed…` / `BAD_USER_INPUT`. The saved author stays stored, and no book or event is added. |
| `MutationProperties.AddBookSucceedsIff` | graphql/resolvers.js:79-131 | `addBook` succeeds if and only if all of these hold: there is a current user, the author exists or validates, the title is untaken, and the new book validates. |
| `MutationProperties.AddBookInserts` | graphql/resolvers.js:116-149 | On success, the appended book has the given title, year and genres and a fresh id. It references the author now stored under the given name. The answer's `bookCount` is that author's count after the insert, which is one more than before. |
| `MutationProperties.AddBookNewAuthorHasOneBook` | graphql/resolvers.js:91-144 | In a valid store, an author created by a successful `addBook` is answered with no birth year, a fresh id and `bookCount` 1. |
| `MutationProperties.AddBookAnswersDetails` | graphql/resolvers.js:133-149 | The success answer is the new book joined with the author stored under the given name, together with that author's recomputed count. |
| `MutationProperties.AddBookAgreesWithListing` | graphql/resolvers.js:133-149 | In a valid store, what `addBook` answers equals the last entry of `allBooks` afterwards. |
| `MutationProperties.AddBookPreservesValid` | graphql/resolvers.js:88-129 | Every outcome of `addBook` keeps the store valid: fresh and distinct ids, unique names and titles, resolving author references. |
| `Mutations.EditAuthor` | graphql/resolvers.js:151-166 | Without a current user, it fails with `UNAUTHENTICATED`. With no author of that name, it returns null and changes nothing. Otherwise it changes only the first such author's `born` and returns the updated author. |
| `MutationProperties.EditAuthorPreservesValid` | graphql/resolvers.js:160-164 | `editAuthor` keeps the store valid. |
| `MutationProperties.EditAuthorIdempotent` | graphql/resolvers.js:160-164 | Repeating the same `editAuthor` call gives the same answer and changes nothing further. |
| `MutationProperties.EditAuthorSeenByAllAuthors` | graphql/resolvers.js:160-164 | After `editAuthor`, `allAuthors` shows the new birth year for that author. Every other entry, and every `bookCount`, is unchanged. |
| `Mutations.CreateUser` | graphql/resolvers.js:178-194 | `createUser` succeeds if and only if the new user validates. On success, it appends exactly that user with a fresh id. On failure, it gives `BAD_USER_INPUT` naming the username and changes nothing. |
| `MutationProperties.CreateUserPreservesValid` | graphql/resolvers.js:178-182 | `createUser` keeps the store valid. |
| `Mutations.Login` | graphql/resolvers.js:196-212 | `login` succeeds if and only if a user with that username exists and the password is `secret`. Otherwise it fails with `Wrong user credentials` / `BAD_USER_INPUT`. The token is signed over the name and id of the first stored user with that username. |
| `MutationProperties.LoginTokenDecodes` | graphql/resolvers.js:207-212 | Under any verifier that inverts the signer, the token decodes to the username and the id of the first user with that name. |
| `MutationProperties.CreateUserThenLogin` | graphql/resolvers.js:178-212 | After creating a user under an unused name, `login` with that name and `secret` yields that new user's token. |
| `MutationProperties.MeMatchesLoginGuard` | graphql/resolvers.js:76-86 | `me` is empty exactly when `addBook` and `editAuthor` refuse with `UNAUTHENTICATED`. |
| `Scenarios.DuneScenario` | graphql/resolvers.js:79-149 | From an empty database: create `alice`, log in, and add `Dune` by `Frank Herbert`. The answer has the new author with `bookCount` 1, and exactly one `BOOK_ADDED` event is published. |
| `Scenarios.DuplicateScenario` | graphql/resolvers.js:88-114 | Repeating a title together with a new author name adds no book but stores the new author. |

## Left out

- index.js is not part of this model. It holds the HTTP/WebSocket server set-up, the database connection and the per-request context. The context decodes the bearer token with `jwt.verify` and loads the user with `User.findById`; both are foreign calls. Here the current user is simply an argument, `Option<User>`.
- models/token.js is not part of this model. It declares a schema and has no logic, and the resolvers never use it.
- Token signing is not modelled as cryptography. `jwt.sign` and the signing secret are replaced by the parameter `sign`.
- The subscription transport is not modelled. The `PubSub` instance and the `bookAdded` iterator are reduced to the list of events a call publishes.
- The `bookCount` returned by `editAuthor` is not modelled. The code compares object ids with `===`, so the value depends on object identity the code cannot show, and the model returns the updated `Author` record without it.
- The contents of the Mongoose schemas (author, book and user models) are not part of this model. Validation is a parameter, so any rule, including unique indexes, can be supplied.
- The `error` object that `createUser` attaches to its error extensions is not modelled.
- Concurrency is not modelled. Each resolver runs as one atomic step, so the race between the duplicate-title lookup and the save cannot be expressed.
- Database and connectivity failures are not modelled. Apart from validation, every read and write succeeds.
- Queries.AllBooks: the model requires that a given author argument names a stored author. It also requires that every book's author reference resolves (`RefsResolve`). The code reads `dbAuthor._id` only inside the filter callbacks (graphql/resolvers.js:30, 33), and reads a book's author only for books that are listed (graphql/resolvers.js:41-45). So an unknown author name faults only when there is a book for the callback to visit. On a store with no books, or with no book of the given genre, the code answers `[]`, and those inputs are not covered here either. `Valid` implies the second requirement, and every mutation preserves `Valid`.
- Database.Valid: it does not require unique usernames. Only a schema rule could enforce that, and such a rule is not part of this model. `login` uses the first matching user.
- GraphQL `Int` is 32-bit. The years `published`, `born` and `setBornTo` are unbounded integers here.
- `bookCount` and `authorCount` are counts only. Their properties are stated through `CountsMatchListings` and `AuthorCountsSumToBookCount`, and `me` is stated through `MeMatchesLoginGuard`.
