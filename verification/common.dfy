/** Small shared vocabulary: optional values and feed entries. */
module Common {
  /** A value that may be missing (Python's `None`). */
  datatype Option<T> = None | Some(value: T)

  /** One RSS item as the bots read it: `entry.title`, `entry.summary`, `entry.link`. */
  datatype Entry = Entry(title: string, summary: string, link: string)

  /** Concatenation regrouped; stated once so that longer proofs need not rediscover it. */
  lemma Regroup<T>(x: seq<T>, y: seq<T>, z: seq<T>)
    ensures x + (y + z) == (x + y) + z
  {
  }
}
