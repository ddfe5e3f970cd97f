/** Optional values and 64-bit sizes, shared by the other modules. */
module Common {
  datatype Option<+T> = None | Some(value: T)

  /** size_t, uint64_t and the identifiers made of them count modulo this. */
  const WORD_LIMIT: nat := 0x1_0000_0000_0000_0000

  /** A Lua integer, a sum or a difference as a 64-bit size. */
  function Wrap64(n: int): (r: nat)
    ensures r < WORD_LIMIT && (0 <= n < WORD_LIMIT ==> r == n) && (0 - WORD_LIMIT <= n < 0 ==> r == n + WORD_LIMIT)
  {
    n % WORD_LIMIT
  }

  /** `r` is the least key of `m` from `from` on, if there is one. */
  ghost predicate IsFirst<V>(m: map<nat, V>, from: nat, r: Option<nat>) {
    match r
    case None => forall k <- m :: k < from
    case Some(h) => h in m && h >= from && forall k <- m | k >= from :: h <= k
  }
}
