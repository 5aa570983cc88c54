/** Types shared by every module of the project. */
module Common {

  datatype Option<+T> = None | Some(value: T)

  const MIN_INT64: int := -0x8000_0000_0000_0000
  const MAX_INT64: int := 0x7fff_ffff_ffff_ffff

  predicate FitsInt64(x: int) {
    MIN_INT64 <= x <= MAX_INT64
  }

  /** Go's int64 and PostgreSQL's BIGINT. Arithmetic on it is unbounded, so every
      place where the program could wrap around is a proof obligation. */
  type int64 = x: int | MIN_INT64 <= x <= MAX_INT64

  lemma {:induction false} SubsetIsNoLarger<T>(a: set<T>, b: set<T>)
    requires a <= b
    ensures |a| <= |b|
  {
    if a != {} {
      var x :| x in a;
      SubsetIsNoLarger(a - {x}, b - {x});
    }
  }
}
