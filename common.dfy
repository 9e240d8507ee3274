// Shared vocabulary of the model: optional values (Java's nullable
// references) and the exceptions the cache classes throw.
module Common {

  /** A Java reference that may be null. */
  datatype Option<T> = None | Some(value: T)

  /** A key and the value it maps to: one entry of a map's content. */
  datatype Pair<K, V> = Pair(key: K, value: V)

  /** The exceptions the modelled classes raise. */
  datatype Exception =
    | IllegalArgument   // java.lang.IllegalArgumentException
    | IllegalState      // java.lang.IllegalStateException
    | IO                // java.io.IOException
    | NullPointer       // java.lang.NullPointerException

  /** How a Java method that returns a value ends: with it, or by throwing. */
  datatype Result<T> = Ok(value: T) | Err(exception: Exception)

  /** How a void Java method ends: normally, or by throwing. */
  datatype Outcome = Normal | Thrown(exception: Exception)
}
