/** When a challenge is issued, when a reply is accepted and for what, and what a commit's
    read-back concludes, spelt out. */
module WitnessLaws {
  import opened Wrappers
  import opened Patterns
  import opened Timestamps
  import opened ActiveReceipts
  import opened WitnessMessages
  import opened CheckpointWitness
  import opened SlotLaws
  import opened ProposalLaws
  import opened SuccessorProposals
  import opened CommitOutcomes

  /** A challenge is issued at a whole second, for an installation's identifier and 32
      octets; its text reads back as exactly that. */
  lemma IssuedExactly(sha: Hash, installation: string, now: Moment, nonce: Bytes, c: IssuedChallenge)
    ensures IssueChallenge(sha, installation, now, nonce) == Some(c) <==>
            && now % 1_000_000 == 0 && c.installation == installation && c.issuedAt == now && c.nonceSha == sha(nonce)
            && ReadChallenge(c.raw) == Some(Challenge(installation, nonce, now / 1_000_000))
  {
    hide Token, ChallengeText, ReadChallenge;
    assert 0 <= now / 1_000_000 < EndOfTime();
    ReadsExactlyChallenges(c.raw, Challenge(installation, nonce, now / 1_000_000));
  }

  /** The challenge reads as what is held of it, and at most 120 seconds have passed. */
  predicate StillOpen(sha: Hash, c: IssuedChallenge, now: Moment) {
    var read := ReadChallenge(c.raw);
    && read.Some? && read.value.installation == c.installation && sha(read.value.nonce) == c.nonceSha
    && read.value.issuedAt * 1_000_000 == c.issuedAt
    && c.issuedAt <= now <= c.issuedAt + 120_000_000
  }

  /** The statement answers this challenge for this witness, now, at the revision asked for. */
  predicate Answers(sha: Hash, s: Statement, c: IssuedChallenge, witnessId: string, now: Moment, minimum: Option<int>) {
    && s.witnessId == witnessId && s.installation == c.installation && s.challengeSha == sha(c.raw)
    && (minimum.Some? ==> 1 <= minimum.value <= s.revision)
    && c.issuedAt <= s.issuedAt * 1_000_000 <= now <= s.expiresAt * 1_000_000
    && s.issuedAt < s.expiresAt <= s.issuedAt + 300
  }

  /** The receipt is the head the statement shows, after the predecessor it shows. */
  predicate Carries(sha: Hash, s: Statement, receipt: Bytes) {
    var r := ParseReceipt(receipt);
    && r.Some? && sha(receipt) == s.headSha && r.value.generation == s.generation
    && if s.predecessor.None? then r.value.generation == 1 && r.value.previousSha.None?
       else r.value.generation == s.predecessor.value.0 + 1 && r.value.previousSha == Some(s.predecessor.value.1)
  }

  /** A reply is accepted exactly when the pinned key verifies it and its statement answers
      the open challenge with this receipt; the observation names what was observed. */
  lemma AcceptedExactly(sha: Hash, verifies: Verifier, c: IssuedChallenge, reply: Bytes, receipt: Bytes,
                        witnessId: string, now: Moment, minimum: Option<int>, o: Observation)
    ensures VerifyStatement(sha, verifies, c, reply, receipt, witnessId, now, minimum) == Some(o) <==>
            && WitnessId(witnessId) && StillOpen(sha, c, now)
            && var e := ReadEnvelope(reply);
            && e.Some? && verifies(e.value.signature, e.value.payload)
            && var s := ReadStatement(e.value.payload);
            && s.Some? && Answers(sha, s.value, c, witnessId, now, minimum) && Carries(sha, s.value, receipt)
            && o.receipt == ParseReceipt(receipt).value && o.digest == sha(receipt)
            && o.witnessId == witnessId && o.installation == c.installation && o.revision == s.value.revision
            && o.challengeSha == sha(c.raw) && o.payloadSha == sha(e.value.payload)
            && o.expiresAt == s.value.expiresAt
  {
    hide ReadEnvelope, ReadStatement, ReadChallenge, ParseReceipt, WitnessName, WitnessId;
    NamesWitness(witnessId);
    var e := ReadEnvelope(reply);
    if e.Some? && ReadStatement(e.value.payload).Some? { StatementRevision(e.value.payload); }
  }

  lemma NamesWitness(s: string)
    ensures WitnessName(s) <==> WitnessId(s)
  {
  }

  lemma StatementRevision(raw: Bytes)
    requires ReadStatement(raw).Some?
    ensures 1 <= ReadStatement(raw).value.revision <= 9007199254740991
  {
    hide ReadStatement, StatementText, Hex, Token, WitnessName;
    ReadsExactlyStatements(raw, ReadStatement(raw).value);
  }

  /** A reply to the request's challenge is accepted with these bytes at this revision. */
  predicate ShownAt(sha: Hash, verifies: Verifier, c: IssuedChallenge, reply: Bytes, receipt: Bytes, witnessId: string,
                    now: Moment, minimum: Option<int>, revision: int) {
    var o := VerifyStatement(sha, verifies, c, reply, receipt, witnessId, now, minimum);
    o.Some? && o.value.revision == revision
  }

  /** A readback confirms the successor when the reply shows it at the revision after the
      request's, and the prior head when it shows that at the request's and not the
      successor at any. */
  lemma ReadbackStatusExactly(sha: Hash, verifies: Verifier, q: Request, nonce: Bytes, transport: Transport,
                              now: Moment, minimum: Option<int>, status: Status)
    ensures SignedHead(sha, verifies, q, nonce, transport, now, minimum) == Some(status) <==>
            && RequestStands(sha, q) && IssueChallenge(sha, q.installation, now, nonce).Some?
            && var c := IssueChallenge(sha, q.installation, now, nonce).value;
            && transport(c.raw).Some?
            && var reply := transport(c.raw).value;
            if status == SuccessorConfirmed then
              ShownAt(sha, verifies, c, reply, q.successor, q.witnessId, now, minimum, q.revision + 1)
            else
              && ShownAt(sha, verifies, c, reply, q.previous, q.witnessId, now, minimum, q.revision)
              && VerifyStatement(sha, verifies, c, reply, q.successor, q.witnessId, now, minimum).None?
  {
    hide ValidRequest, RequestStands, IssueChallenge, VerifyStatement;
    RequestStandsExactly(sha, q);
  }
}
