/** Small vocabulary shared by every component: optional values, the error codes of
    include/watch_err.h and the C conversion from a wide integer to `int`. */
module Common {

  datatype Option<+T> = None | Some(value: T)

  // include/watch_err.h
  const ENOERR := 0
  const EREBOOT := 255
  const ERESET := 254
  const ETOOHOT := 252
  const ECHKILL := 248
  const ETOOLONG := 247
  const EDONTKNOW := 245

  // errno values that a branch of the daemon looks at
  const ENOENT := 2
  const ENOMEM := 12
  const EBUSY := 16
  const EINVAL := 22

  const INT_MAX := 0x7fff_ffff
  const TWO_32 := 0x1_0000_0000

  /** The C cast `(int) x` of a wider integer: reduction to 32 bits, two's complement. */
  function ToInt32(x: int): (r: int)
    ensures -INT_MAX - 1 <= r <= INT_MAX
    ensures (x - r) % TWO_32 == 0
    ensures -INT_MAX - 1 <= x <= INT_MAX ==> r == x
    ensures 0 <= x ==> r <= x
  {
    var m := x % TWO_32;
    if m <= INT_MAX then m else m - TWO_32
  }

  /** WEXITSTATUS(x): bits 8 to 15 of a wait status. */
  function ExitStatus(x: int): (r: int)
    ensures 0 <= r < 256
    ensures 0 <= x < 256 ==> r == 0
  {
    (x / 256) % 256
  }

  // ----- induction over the steps of a run -----

  predicate StepsOn(holds: nat -> bool, k: nat) { holds(k) ==> holds(k + 1) }

  /** What holds at first and is kept by each of n steps holds after them. */
  lemma {:induction false} ByInduction(holds: nat -> bool, n: nat)
    requires holds(0) && forall k | 0 <= k < n :: StepsOn(holds, k)
    ensures holds(n)
  {
    if n > 0 {
      ByInduction(holds, n - 1);
      assert StepsOn(holds, n - 1);
    }
  }
}
