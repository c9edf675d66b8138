/**
 Approvals, their validity window, and the authority that verifies one and burns
 its nonce in a ledger directory shared by every process.
 */
module Approval {
  import opened Wrappers

  /** Times are milliseconds; `IsSafe` is Number.isSafeInteger. */
  datatype Payload = Payload(binding: string, nonce: string, issuedAt: int, expiresAt: int)

  const LIFETIME_MS := 600000
  const MAX_SAFE := 0x1F_FFFF_FFFF_FFFF

  predicate IsSafe(n: int) {
    -MAX_SAFE <= n <= MAX_SAFE
  }

  predicate IsHex64(s: string) {
    |s| == 64 && forall k :: 0 <= k < 64 ==> '0' <= s[k] <= '9' || 'a' <= s[k] <= 'f'
  }

  predicate ValidTime(p: Payload, now: int) {
    && IsSafe(now) && IsSafe(p.issuedAt) && IsSafe(p.expiresAt)
    && p.issuedAt >= 0 && p.issuedAt <= now && p.expiresAt > now
    && p.expiresAt - p.issuedAt <= LIFETIME_MS
  }

  /** createApprovalPayload: refuses what could not be verified now. */
  function Create(binding: string, nonce: string, issuedAt: int, expiresAt: int, now: int): Result<Payload> {
    if !IsHex64(binding) || !IsHex64(nonce) || !IsSafe(now) || !IsSafe(issuedAt) || !IsSafe(expiresAt)
       || issuedAt < 0 || issuedAt > now || expiresAt <= now || expiresAt - issuedAt > LIFETIME_MS
    then Thrown
    else Ok(Payload(binding, nonce, issuedAt, expiresAt))
  }

  /** A created payload is valid exactly from its issue to just before its expiry, at most ten minutes. */
  lemma CreatedWindow(binding: string, nonce: string, issuedAt: int, expiresAt: int, now: int, t: int)
    requires Create(binding, nonce, issuedAt, expiresAt, now).Ok?
    ensures var p := Create(binding, nonce, issuedAt, expiresAt, now).value;
            && (ValidTime(p, t) <==> issuedAt <= t < expiresAt)
            && ValidTime(p, now) && expiresAt <= issuedAt + LIFETIME_MS
  {
  }

  /** Creation succeeds exactly on what the authority would accept at the same moment. */
  lemma CreateExactly(binding: string, nonce: string, issuedAt: int, expiresAt: int, now: int)
    ensures
      var p := Payload(binding, nonce, issuedAt, expiresAt);
      Create(binding, nonce, issuedAt, expiresAt, now) ==
      if Envelope(true, 1, PURPOSE, 1, p, true).Admissible(binding) && ValidTime(p, now) then Ok(p) else Thrown
  {
  }

  const PURPOSE := "six-file-preparation"

  /** What a submitted text comes to. `shaped`: at most 4096 bytes of JSON with exactly the expected
      keys, and a signature of the right length and alphabet. `signed`: the signature is the operator's
      for the canonical message of the payload. */
  datatype Envelope = Envelope(
    shaped: bool, version: int, purpose: string, maxUses: int, payload: Payload, signed: bool)
  {
    predicate Admissible(binding: string) {
      && IsHex64(binding) && shaped && version == 1 && purpose == PURPOSE && maxUses == 1
      && payload.binding == binding && IsHex64(payload.nonce) && signed
    }
  }

  /** All that is free in an admissible envelope are the nonce and the two times. */
  lemma AdmissibleExactly(e: Envelope, binding: string)
    ensures
      var p := Payload(binding, e.payload.nonce, e.payload.issuedAt, e.payload.expiresAt);
      e.Admissible(binding) <==>
        IsHex64(binding) && IsHex64(p.nonce) && e == Envelope(true, 1, "six-file-preparation", 1, p, true)
  {
  }

  datatype Verdict = Consumed | Revoked

  /** The ledger directory: the terminal file of each nonce that has one. */
  class Ledger {
    var terminal: map<string, Verdict>

    constructor ()
      ensures terminal == map[]
    {
      terminal := map[];
    }
  }

  /** How far the file operations after the exclusive creation get. */
  datatype Fault = NoFault | BeforeOpen | AfterOpen

  class Authority {
    const ledger: Ledger
    var verified: set<Payload>

    constructor (ledger: Ledger)
      ensures this.ledger == ledger && verified == {}
    {
      this.ledger := ledger;
      verified := {};
    }

    /** `readable` is whether the directory check and the lstat work. */
    method Verify(e: Envelope, binding: string, now: int, readable: bool) returns (approval: Result<Payload>)
      modifies this
      ensures approval.Ok? <==>
              && e.Admissible(binding) && ValidTime(e.payload, now) && readable
              && e.payload.nonce !in ledger.terminal
      ensures verified == old(verified) + (if approval.Ok? then {e.payload} else {})
      ensures approval.Ok? ==> approval.value == e.payload
      ensures ledger.terminal == old(ledger.terminal)
    {
      if !IsHex64(binding) || !e.shaped { return Thrown; }
      var p := e.payload;
      if e.version != 1 || e.purpose != PURPOSE || e.maxUses != 1 || p.binding != binding
         || !IsHex64(p.nonce) || !ValidTime(p, now) {
        return Thrown;
      }
      if !e.signed || !readable || p.nonce in ledger.terminal { return Thrown; }
      verified := verified + {p};
      return Ok(p);
    }

    /** consume and revoke: the first to create the nonce's file wins, and a failure after
        the creation burns the nonce all the same. */
    method Terminal(p: Payload, now: int, verdict: Verdict, fault: Fault) returns (ok: bool)
      modifies ledger
      ensures
        var created :=
          p in verified && ValidTime(p, now) && !fault.BeforeOpen? && p.nonce !in old(ledger.terminal);
        && ok == (created && fault.NoFault?)
        && ledger.terminal == old(ledger.terminal) + (if created then map[p.nonce := verdict] else map[])
    {
      if p !in verified || !ValidTime(p, now) { return false; }
      if fault.BeforeOpen? || p.nonce in ledger.terminal { return false; }
      ledger.terminal := ledger.terminal[p.nonce := verdict];
      return fault.NoFault?;
    }
  }

  /** One call of consume or revoke on one of several authorities. */
  datatype Call = Call(who: nat, payload: Payload, now: int, verdict: Verdict, fault: Fault)

  /** Any calls, by any authorities that share one ledger, in any order: of all calls with one nonce at
      most one returns normally, none does whose nonce was burnt before, and each that does leaves its
      own verdict in the ledger for good. */
  method Contest(authorities: seq<Authority>, ledger: Ledger, calls: seq<Call>) returns (won: seq<bool>)
    requires forall a :: a in authorities ==> a.ledger == ledger
    requires forall k :: 0 <= k < |calls| ==> calls[k].who < |authorities|
    modifies ledger
    ensures |won| == |calls|
    ensures forall i, j :: 0 <= i < j < |calls| && won[i] && won[j] ==> calls[i].payload.nonce != calls[j].payload.nonce
    ensures forall k :: 0 <= k < |calls| && won[k] ==>
              && calls[k].payload.nonce !in old(ledger.terminal)
              && calls[k].payload in authorities[calls[k].who].verified && ValidTime(calls[k].payload, calls[k].now)
              && calls[k].payload.nonce in ledger.terminal
              && ledger.terminal[calls[k].payload.nonce] == calls[k].verdict
    ensures forall n :: n in old(ledger.terminal) ==>
              n in ledger.terminal && ledger.terminal[n] == old(ledger.terminal[n])
  {
    won := [];
    for k := 0 to |calls|
      invariant |won| == k
      invariant forall i, j :: 0 <= i < j < k && won[i] && won[j] ==> calls[i].payload.nonce != calls[j].payload.nonce
      invariant forall i :: 0 <= i < k && won[i] ==>
        && calls[i].payload.nonce !in old(ledger.terminal)
        && calls[i].payload in authorities[calls[i].who].verified && ValidTime(calls[i].payload, calls[i].now)
        && calls[i].payload.nonce in ledger.terminal
        && ledger.terminal[calls[i].payload.nonce] == calls[i].verdict
      invariant forall n :: n in old(ledger.terminal) ==>
        n in ledger.terminal && ledger.terminal[n] == old(ledger.terminal[n])
    {
      hide ValidTime;
      var c := calls[k];
      var ok := authorities[c.who].Terminal(c.payload, c.now, c.verdict, c.fault);
      won := won + [ok];
    }
  }
}
