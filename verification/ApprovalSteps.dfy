/**
 The authority's methods and the protocol's steps are the same: verification, and
 the three steps of a claim run one after the other.
 */
module ApprovalSteps {
  import opened Wrappers
  import opened Approval
  import opened OneShot
  import Supervisor

  /** The same nonces are burnt. */
  ghost predicate SameLedger(ledger: Ledger, burnt: map<string, nat>)
    reads ledger
  {
    ledger.terminal.Keys == burnt.Keys
  }

  /** Verification is the step, with whatever the protocol leaves out counted as its fault. */
  method Verifies(a: Authority, v: View, e: Envelope, binding: string, readable: bool)
    returns (approval: Result<Payload>)
    requires v.me.phase.Unverified? && v.me.approval == e.payload && SameLedger(a.ledger, v.ledger)
    modifies a
    ensures
      var w := DoVerify(v, !(e.Admissible(binding) && readable));
      && (approval.Ok? <==> w.me.phase.Verified?) && (approval.Thrown? <==> w.me.phase.Refused?)
      && SameLedger(a.ledger, w.ledger)
    ensures approval.Ok? ==> approval.value == v.me.approval && v.me.approval in a.verified
  {
    hide ValidTime;
    approval := a.Verify(e, binding, v.clock, readable);
  }

  /** Consume or revoke, uninterrupted, is the claim, the creation and the finish. */
  method Claims(a: Authority, v: View, pid: nat, verdict: Verdict, fault: Fault) returns (ok: bool)
    requires v.me.phase.Verified? && v.me.approval in a.verified && !v.me.succeeded
    requires SameLedger(a.ledger, v.ledger)
    modifies a.ledger
    ensures
      var w := DoFinish(DoCreate(Claim(v, false), pid, fault.BeforeOpen?), fault.AfterOpen?);
      && ok == w.me.succeeded && (ok <==> w.me.phase.Settled?) && (!ok <==> w.me.phase.Refused?)
      && SameLedger(a.ledger, w.ledger)
      && (w.ledger != v.ledger ==> a.ledger.terminal == old(a.ledger.terminal)[v.me.approval.nonce := verdict])
  {
    hide ValidTime, Supervisor.Step;
    ok := a.Terminal(v.me.approval, v.clock, verdict, fault);
  }
}
