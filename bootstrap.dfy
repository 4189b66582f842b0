/**
  The bounded retry of `setup(attempts)` (src/content.js:73-80), started as
  `setup(0)` once the page has loaded (src/content.js:105-108). Each call looks for
  the now-playing widget once; when it is missing the call gives up after the
  attempt numbered 3 and otherwise schedules the next attempt.
 */
module Bootstrap {

  /** The attempt number from which a missing widget is given up on. */
  const MaxAttempts: nat := 3

  /** What one call of `setup` does after looking for the widget. */
  datatype Decision =
    | Proceed            // the widget is there: add the button
    | Retry(next: nat)   // `setTimeout(() => setup(next), 1000)`
    | GiveUp             // warn and stop

  /** The decision of `setup(attempts)`. */
  function Setup(attempts: nat, widgetPresent: bool): (d: Decision)
    ensures d == Proceed <==> widgetPresent
    ensures d.Retry? ==> attempts < MaxAttempts && d.next == attempts + 1
    ensures attempts >= MaxAttempts ==> !d.Retry?
    ensures !widgetPresent && attempts < MaxAttempts ==> d == Retry(attempts + 1)
    ensures !widgetPresent && attempts >= MaxAttempts ==> d == GiveUp
  {
    if widgetPresent then Proceed
    else if attempts >= MaxAttempts then GiveUp
    else Retry(attempts + 1)
  }

  /** `setup(0)` and the calls it schedules, while `present(i)` tells whether the widget
      is on the page at the check made by `setup(i)`. The chain makes at most four
      checks; it proceeds at the first check that finds the widget, and gives up only
      after four checks found nothing. */
  method Start(present: nat -> bool) returns (checks: nat, found: bool)
    ensures 1 <= checks <= MaxAttempts + 1
    ensures found <==> present(checks - 1)
    ensures forall i :: 0 <= i < checks - 1 ==> !present(i)
    ensures !found ==> checks == MaxAttempts + 1
  {
    var attempts := 0;
    var decision := Setup(attempts, present(attempts));
    checks := 1;
    while decision.Retry?
      invariant checks == attempts + 1 <= MaxAttempts + 1
      invariant decision == Setup(attempts, present(attempts))
      invariant forall i :: 0 <= i < attempts ==> !present(i)
      decreases MaxAttempts - attempts
    {
      attempts := decision.next;
      decision := Setup(attempts, present(attempts));
      checks := checks + 1;
    }
    found := decision == Proceed;
  }
}
