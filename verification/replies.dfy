/** The two shapes of every query's answer. */
module Replies {

  /** Either the "does not exist" / "no records" message for the requested key,
      which the source returns as an ordinary payload rather than an error, or
      the aggregate that was asked for. */
  datatype Reply<K, V> = NotFound(key: K) | Found(value: V)
}
