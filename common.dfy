/** Small shared vocabulary: optional values, results, and the user record
    that the session layer hands to every controller. */
module Common {

  datatype Option<+T> = None | Some(value: T)

  datatype Result<+T, +E> = Success(value: T) | Failure(error: E)

  /** A row of the users table. `passwordHash` is what the password hasher
      produced at registration. */
  datatype User = User(id: string, username: string, email: string, passwordHash: string)
}
