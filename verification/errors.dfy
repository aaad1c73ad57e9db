/** The structured errors the resolvers raise: a `GraphQLError` with a
    message, an `extensions.code` and an optional `invalidArgs` value. */
module Errors {
  import opened Wrappers

  datatype Code = Unauthenticated | BadUserInput

  datatype GraphQLError = GraphQLError(message: string, code: Code, invalidArgs: Option<string>)

  /** What a resolver answers: a value, or the error it throws. */
  datatype Result<+T> = Ok(value: T) | Err(error: GraphQLError)

  /** A mutation that needs a logged-in caller was called without one. */
  const LogInFirst := GraphQLError("Log in first", Unauthenticated, None)

  /** The author that `addBook` tried to create failed validation. */
  function AuthorNameRejected(name: string): GraphQLError {
    GraphQLError("Author name should be 5 or more in length", BadUserInput, Some(name))
  }

  /** A book with this title is already stored. */
  function DuplicateTitle(title: string): GraphQLError {
    GraphQLError("Book is already added", BadUserInput, Some(title))
  }

  /** The new book failed validation. */
  const BookRejected := GraphQLError(
    "Saving book failed. Please refer to this data's corresponding Schema to check which arguments violate rules",
    BadUserInput, None)

  /** The new user failed validation. */
  function UserRejected(username: string): GraphQLError {
    GraphQLError("Creating user failed. Username should be at least 3 characters in length", BadUserInput, Some(username))
  }

  /** Unknown user name or wrong password. */
  const WrongCredentials := GraphQLError("Wrong user credentials", BadUserInput, None)
}
