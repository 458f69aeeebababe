/** What several containers share: optional values, lookup, and the range of 32-bit numbers. */
module Common {

  datatype Option<T> = None | Some(value: T)

  function Find<T>(m: map<nat, T>, i: nat): Option<T> {
    if i in m then Some(m[i]) else None
  }

  /** The number of 32-bit numbers. */
  const WRAP := 0x1_0000_0000
}
