/**
 * The wire contract between the browser-side detector and the server-side
 * violation ledger: the action directive and the data of a successful reply.
 */
module Protocol {
  import opened Wrappers

  /** What the server tells the client to do after an event. */
  datatype Action = Ok | Warn | End

  /** The `data` object of a successful reply: violation count, action, message and the exam session id. */
  datatype Directive = Directive(violations: int, action: Action, message: string, sessionId: Option<nat>)

  /**
   * The escalation law both sides follow: no violation is `ok`, one or two are
   * `warn`, three or more are `end`.
   */
  function ActionFor(count: int): (a: Action)
    ensures a == Ok <==> count <= 0
    ensures a == Warn <==> 1 <= count <= 2
    ensures a == End <==> count >= 3
  {
    if count >= 3 then End
    else if count == 1 || count == 2 then Warn
    else Ok
  }

  /** How far an action goes: ok, then warn, then end. */
  function Severity(a: Action): nat {
    match a
    case Ok => 0
    case Warn => 1
    case End => 2
  }

  /** More violations never call for a milder action, and from three on the action stays `end`. */
  lemma EscalationIsMonotone(a: int, b: int)
    requires a <= b
    ensures Severity(ActionFor(a)) <= Severity(ActionFor(b))
    ensures ActionFor(a) == End ==> ActionFor(b) == End
  {
  }
}
