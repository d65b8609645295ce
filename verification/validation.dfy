/** Chat-command validators: an ordered list of checks, each a failure
    condition and the message to return for it. The validator returns the
    message of the first failing check, and the empty string (meaning
    "accept") when none fails. */
module Validation {

  datatype Check = Check(fails: bool, message: string)

  const Accept: string := ""

  /** The message of the first failing check, or `Accept`. */
  function FirstFailure(checks: seq<Check>): (r: string)
  {
    if checks == [] then Accept
    else if checks[0].fails then checks[0].message
    else FirstFailure(checks[1..])
  }

  /** Index of the first failing check, `|checks|` when there is none. */
  function FirstFailing(checks: seq<Check>): (i: nat)
    ensures i <= |checks|
    ensures forall j :: 0 <= j < i ==> !checks[j].fails
    ensures i < |checks| ==> checks[i].fails
  {
    if checks == [] then 0
    else if checks[0].fails then 0
    else 1 + FirstFailing(checks[1..])
  }

  /** The validator short-circuits: its answer is the message of the first
      failing check, later checks (failing or not) have no say, and when the
      messages are non-empty it accepts exactly when no check fails. */
  lemma {:induction false} FirstFailureIsFirst(checks: seq<Check>)
    ensures var i := FirstFailing(checks);
      FirstFailure(checks) == if i < |checks| then checks[i].message else Accept
    ensures (forall j :: 0 <= j < |checks| ==> checks[j].message != Accept) ==>
      (FirstFailure(checks) == Accept <==> forall j :: 0 <= j < |checks| ==> !checks[j].fails)
  {
    if checks != [] && !checks[0].fails {
      FirstFailureIsFirst(checks[1..]);
      assert forall j :: 1 <= j < |checks| ==> checks[1..][j - 1] == checks[j];
    }
  }

  /** Appending checks after a failing one does not change the answer. */
  lemma {:induction false} FailingPrefixDecides(checks: seq<Check>, later: seq<Check>)
    requires exists j :: 0 <= j < |checks| && checks[j].fails
    ensures FirstFailure(checks + later) == FirstFailure(checks)
  {
    if !checks[0].fails {
      assert (checks + later)[1..] == checks[1..] + later;
      var j :| 0 <= j < |checks| && checks[j].fails;
      assert checks[1..][j - 1].fails;
      FailingPrefixDecides(checks[1..], later);
    }
  }
}
