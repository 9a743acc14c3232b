/** Words, optional values, initial segments. */
module Common {
  const WORD_END: nat := 0x1_0000_0000_0000_0000
  const PAGE_SIZE: nat := 4096

  /** A 64-bit unsigned word. */
  type Word = x: int | 0 <= x < WORD_END

  datatype Option<T> = None | Some(value: T)

  /** The numbers below n. */
  ghost function UpTo(n: nat): (r: set<nat>)
    ensures forall x: nat :: x in r <==> x < n
  {
    if n == 0 then {} else UpTo(n - 1) + {n - 1}
  }
}
