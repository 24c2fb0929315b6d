/** What a Ruby value or call can be besides a plain value: nil, or an
    exception. Both revisions of the structure learner call methods their
    receivers do not have; those calls are modelled as results that carry
    the exception. */
module Ruby {
  /** The Ruby exceptions the learners can raise. ArgumentError is what a
      comparison of a Float with a non-numeric object raises. */
  datatype RubyError = NameError | NoMethodError | ArgumentError

  /** A value that may be nil. */
  datatype Option<T> = None | Some(value: T)

  /** A call that either returns a value or raises. */
  datatype Outcome<T> = Ok(value: T) | Raise(error: RubyError)
}
