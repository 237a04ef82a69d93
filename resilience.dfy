/** The retry helper of the utils package. The operation being retried is
    given as the sequence of outcomes its successive calls produce:
    `call(i)` is what the (i+1)-th call returns. */
module Resilience {
  import opened Common

  /** Attempt: calls the operation up to `attempts` times, stopping at the
      first call that succeeds; `calls` reports how many calls were made. */
  method Attempt<E>(attempts: int, call: nat -> Outcome<E>) returns (r: Outcome<E>, calls: nat)
    ensures attempts <= 0 ==> r == Pass && calls == 0
    ensures attempts > 0 ==> 1 <= calls <= attempts
    ensures forall i :: 0 <= i < calls - 1 ==> call(i).Fail?
    ensures attempts > 0 ==> r == call(calls - 1)
    ensures r.Fail? ==> calls == attempts
  {
    var err: Outcome<E> := Pass;
    calls := 0;
    var i := 0;
    while i < attempts
      invariant 0 <= i && (attempts > 0 ==> i <= attempts) && (attempts <= 0 ==> i == 0)
      invariant calls == i
      invariant forall j :: 0 <= j < i ==> call(j).Fail?
      invariant i > 0 ==> err == call(i - 1)
      invariant i == 0 ==> err == Pass
    {
      err := call(i);
      calls := calls + 1;
      if err.Pass? {
        return Pass, calls;
      }
      i := i + 1;
    }
    return err, calls;
  }
}
