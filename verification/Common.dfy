/** What several of the models use. */
module Common {

  datatype Option<+T> = None | Some(value: T)

  /** `INVALID_TUPLE`, an unsigned 32-bit integer. */
  const INVALID_TUPLE: nat := 0xFFFF_FFFF

  function Min(a: int, b: int): int { if a < b then a else b }

  lemma Assoc<T>(a: seq<T>, b: seq<T>, c: seq<T>)
    ensures a + b + c == a + (b + c)
  {
  }
}
