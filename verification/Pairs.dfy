/** The key/value pair shared by the three tables (util/pair.h). */
module Pairs {
  // Integer keys; the tables only compare keys and hash them.
  type Key = nat
  type Value = int

  // The zero key marks a free slot, and NONE is what a failed lookup returns.
  const INVALID: Key := 0
  const NONE: Value := 0

  datatype Pair = Pair(key: Key, value: Value)

  // What the default constructor leaves in a slot.
  const EMPTY := Pair(INVALID, NONE)
}
