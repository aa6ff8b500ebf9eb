/** The bounded retry loop both downloaders run (`for intento in
    range(max_retries)`): each attempt settles the download, abandons it, or asks
    for another attempt, and a pause follows an attempt that asks for another
    unless it was the last. */
module Retry {

  /** How one attempt ends: `Done` returns from the loop with a file, `Abandon`
      breaks out of it, `Again` goes on to the next attempt. */
  datatype Step = Done | Abandon | Again

  /** How the loop went: whether an attempt settled it, how many attempts were
      made and how many pauses were taken. */
  datatype Run = Run(done: bool, attempts: nat, waits: nat)

  /** The loop from attempt `i` on, with at most `max` attempts in all and attempt
      `k` ending as `step(k)`. */
  function Retries(max: nat, step: nat -> Step, i: nat): Run
    decreases max - i
  {
    if i >= max then Run(false, 0, 0)
    else match step(i)
      case Done => Run(true, 1, 0)
      case Abandon => Run(false, 1, 0)
      case Again =>
        var rest := Retries(max, step, i + 1);
        Run(rest.done, rest.attempts + 1, rest.waits + if i < max - 1 then 1 else 0)
  }

  /** At most `max - i` attempts are made, at least one when any is allowed, and
      every attempt but the last is followed by a pause. */
  lemma {:induction false} RetriesBounds(max: nat, step: nat -> Step, i: nat)
    requires i <= max
    ensures Retries(max, step, i).attempts <= max - i
    ensures i < max ==> Retries(max, step, i).attempts >= 1
    ensures Retries(max, step, i).attempts >= 1 ==>
      Retries(max, step, i).waits == Retries(max, step, i).attempts - 1
    decreases max - i
  {
    if i < max && step(i) == Again {
      RetriesBounds(max, step, i + 1);
    }
  }

  /** The loop ends at the first attempt `j` that does not ask for another:
      `j - i + 1` attempts are made, and the download is settled exactly when
      attempt `j` settled it; an abandoning attempt is never followed by another. */
  lemma {:induction false} RetriesEndAt(max: nat, step: nat -> Step, i: nat, j: nat)
    requires i <= j < max
    requires forall k | i <= k < j :: step(k) == Again
    requires step(j) != Again
    ensures Retries(max, step, i).attempts == j - i + 1
    ensures Retries(max, step, i).done <==> step(j) == Done
    decreases j - i
  {
    if i < j {
      RetriesEndAt(max, step, i + 1, j);
    }
  }

  /** When every attempt asks for another, all of them are made and nothing is
      settled. */
  lemma {:induction false} RetriesExhausted(max: nat, step: nat -> Step, i: nat)
    requires i <= max
    requires forall k | i <= k < max :: step(k) == Again
    ensures Retries(max, step, i).attempts == max - i
    ensures !Retries(max, step, i).done
    decreases max - i
  {
    if i < max {
      RetriesExhausted(max, step, i + 1);
    }
  }

  /** A settled loop was settled by an attempt that said so, every earlier one
      having asked for another. */
  lemma {:induction false} RetriesDoneBy(max: nat, step: nat -> Step, i: nat)
    requires Retries(max, step, i).done
    ensures exists j | i <= j < max :: step(j) == Done && forall k | i <= k < j :: step(k) == Again
    decreases max - i
  {
    if step(i) == Again {
      RetriesDoneBy(max, step, i + 1);
      var j :| i + 1 <= j < max && step(j) == Done && forall k | i + 1 <= k < j :: step(k) == Again;
      assert forall k | i <= k < j :: step(k) == Again;
    }
  }

  /** The loop itself: stop at the first attempt that settles or abandons, and
      pause after each other attempt but the last. */
  method RunRetries(max: nat, step: nat -> Step) returns (r: Run)
    ensures r == Retries(max, step, 0)
  {
    var i, waits := 0, 0;
    while i < max
      invariant i <= max
      invariant Retries(max, step, 0) ==
        var rest := Retries(max, step, i);
        Run(rest.done, rest.attempts + i, rest.waits + waits)
    {
      match step(i) {
        case Done => return Run(true, i + 1, waits);
        case Abandon => return Run(false, i + 1, waits);
        case Again =>
      }
      if i < max - 1 {
        waits := waits + 1;
      }
      i := i + 1;
    }
    return Run(false, i, waits);
  }
}
