/** The record both stores hold, and the outcome types the model uses where
    the C# code returns null or throws. */
module Records {

  /** A birthday (a DateTimeOffset in the source). The model never looks
      inside it: it is stored, copied and passed to the time-zone
      conversion, nothing more. */
  datatype Instant = Instant(ticks: int)

  /** A person. `Id` is the local table's primary key (auto-increment is
      off); 0 means "no id assigned by the server yet". */
  datatype Person = Person(Id: int, Name: string, Birthday: Instant)

  /** The value of a reference that may be null. */
  datatype Option<+T> = None | Some(value: T)

  /** An operation that completes or throws. */
  datatype Outcome<+E> = Pass | Fail(error: E)

  /** An operation that returns a value or throws. */
  datatype Result<+T, +E> = Ok(value: T) | Err(error: E)

  /** The exceptions the modelled code lets escape. */
  datatype Fault =
    | ConstraintViolation  // SQLite refuses an insert whose primary key is taken
    | RemoteError          // an HTTP request failed and the client rethrew
    | NullReference        // a member of the null list of a failed GET was used

  /** `new Person()`: every property at its default value (the null name is
      written as the empty string). */
  function NewPerson(): (p: Person)
    ensures p.Id == 0
  {
    Person(0, "", Instant(0))
  }
}
