/** The bounded retry around the chart library's scatter call (the library is known to
    fail at random on valid input). */
module Retry {

  /** `for _ in range(2)`: the library is called at most this many times. */
  const MaxAttempts: nat := 2

  /** What one call into the chart library did: built the figure or raised. */
  datatype Attempt = Rendered | Raised(error: string)

  /** Calls the library until it renders, at most `MaxAttempts` times. `render(k)` is
      what the (k+1)-th call does. A failure of the first call is dropped; a failure of
      the second is logged (`logged`) and re-raised (`outcome` is that failure). */
  method RenderWithRetry(render: nat -> Attempt) returns (outcome: Attempt, calls: nat, logged: bool)
    ensures 1 <= calls <= MaxAttempts
    ensures outcome == render(calls - 1)
    ensures forall k :: 0 <= k < calls - 1 ==> render(k).Raised?
    ensures calls == 1 <==> render(0).Rendered?
    ensures outcome.Rendered? <==> exists k :: 0 <= k < MaxAttempts && render(k).Rendered?
    ensures logged <==> outcome.Raised?
  {
    calls, logged := 0, false;
    outcome := Rendered;
    for attempt := 0 to MaxAttempts
      invariant calls == attempt <= 1
      invariant forall k :: 0 <= k < attempt ==> render(k).Raised?
    {
      var result := render(attempt);
      calls := calls + 1;
      if result.Rendered? {
        outcome := result;
        return;
      }
      if attempt == 0 {
        continue;
      }
      logged := true;
      outcome := result;
      return;
    }
  }

  /** What callers can conclude from the contract alone. */
  method RetryScenarios()
  {
    var outcome, calls, logged := RenderWithRetry(k => if k == 0 then Raised("flaky") else Rendered);
    assert outcome == Rendered && calls == 2 && !logged;
    outcome, calls, logged := RenderWithRetry(k => Raised("attempt " + if k == 0 then "one" else "two"));
    assert outcome == Raised("attempt two") && calls == MaxAttempts && logged;
    outcome, calls, logged := RenderWithRetry(k => Rendered);
    assert calls == 1 && !logged;
  }
}
