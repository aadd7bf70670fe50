/** Token format checks (backend/auth/auth.go): a sender token must start
    with "TX-", a receiver token with "RX-". The constant-time comparison
    is modelled by its result only. */
module Auth {

  const SenderPrefix := "TX-"
  const ReceiverPrefix := "RX-"

  /** False below three bytes; otherwise true iff the first three bytes are
      'T', 'X', '-'. */
  function ValidateSenderToken(tx: string): (ok: bool)
    ensures |tx| < 3 ==> !ok
    ensures ok <==> |tx| >= 3 && tx[0] == 'T' && tx[1] == 'X' && tx[2] == '-'
  {
    if |tx| < 3 then false
    else tx[0..3] == SenderPrefix
  }

  /** False below three bytes; otherwise true iff the first three bytes are
      'R', 'X', '-'. */
  function ValidateReceiverToken(rx: string): (ok: bool)
    ensures |rx| < 3 ==> !ok
    ensures ok <==> |rx| >= 3 && rx[0] == 'R' && rx[1] == 'X' && rx[2] == '-'
  {
    if |rx| < 3 then false
    else rx[0..3] == ReceiverPrefix
  }

  /** No string is both a valid sender and a valid receiver token. */
  lemma SenderAndReceiverDisjoint(t: string)
    ensures !(ValidateSenderToken(t) && ValidateReceiverToken(t))
  {
  }

  /** Validity depends on the first three bytes only: whatever is appended
      to a token, and whatever follows its prefix, does not matter. */
  lemma ValidityIsPrefixDetermined(t: string, u: string)
    requires |t| >= 3 && |u| >= 3 && t[..3] == u[..3]
    ensures ValidateSenderToken(t) == ValidateSenderToken(u)
    ensures ValidateReceiverToken(t) == ValidateReceiverToken(u)
  {
    assert t[0] == t[..3][0] && u[0] == u[..3][0];
    assert t[1] == t[..3][1] && u[1] == u[..3][1];
    assert t[2] == t[..3][2] && u[2] == u[..3][2];
  }

  /** Appending to a valid token keeps it valid. */
  lemma AppendKeepsValidity(t: string, more: string)
    ensures ValidateSenderToken(t) ==> ValidateSenderToken(t + more)
    ensures ValidateReceiverToken(t) ==> ValidateReceiverToken(t + more)
  {
    if |t| >= 3 {
      assert (t + more)[..3] == t[..3];
      ValidityIsPrefixDetermined(t, t + more);
    }
  }
}
