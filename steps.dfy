/**
 * A loop that applies a partial step to a state n times, with indices
 * 0 .. n-1, and stops at the first step whose outcome is undefined.
 */
module Steps {

  import opened Wrappers

  /** The state after step(., 0) .. step(., n - 1); None once a step is None. */
  function Run<S>(step: (S, nat) -> Option<S>, s: S, n: nat): (r: Option<S>)
  {
    if n == 0 then Some(s)
    else
      match Run(step, s, n - 1)
      case None => None
      case Some(b) => step(b, n - 1)
  }

  /** A run that is defined is defined on every prefix. */
  lemma {:induction false} RunPrefix<S>(step: (S, nat) -> Option<S>, s: S, m: nat, n: nat)
    requires m <= n && Run(step, s, n).Some?
    ensures Run(step, s, m).Some?
  {
    if m < n {
      RunPrefix(step, s, m, n - 1);
    }
  }

  /** A property of the state that every defined step keeps holds after every defined run. */
  lemma {:induction false} RunKeeps<S>(step: (S, nat) -> Option<S>, inv: S -> bool, s: S, n: nat)
    requires inv(s)
    requires forall b, i :: inv(b) && step(b, i).Some? ==> inv(step(b, i).value)
    ensures Run(step, s, n).Some? ==> inv(Run(step, s, n).value)
  {
    if n > 0 {
      RunKeeps(step, inv, s, n - 1);
    }
  }

}
