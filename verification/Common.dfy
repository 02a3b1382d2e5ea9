/** What several modules need. */
module Common {
  datatype Option<T> = None | Some(value: T)

  /** `MAXSYMLINKS` of `<sys/param.h>`, the limit on links and on scripts that run scripts. */
  const MAXSYMLINKS: nat := 20

  function Pow2(n: nat): (r: nat)
    ensures r >= 1
  {
    if n == 0 then 1 else 2 * Pow2(n - 1)
  }
}
