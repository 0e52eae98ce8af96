/** The client of the witness: it writes a fresh challenge and accepts a signed reply
    only for that challenge, inside its window, and for the receipt bytes it holds. */
module CheckpointWitness {
  import opened Wrappers
  import opened Patterns
  import opened Timestamps
  import opened ActiveReceipts
  import opened WitnessMessages

  datatype IssuedChallenge = IssuedChallenge(raw: Bytes, installation: string, nonceSha: string, issuedAt: Moment)

  function IssueChallenge(sha: Hash, installation: string, now: Moment, nonce: Bytes): Option<IssuedChallenge> {
    if !Token(installation) || now % SECOND != 0 || |nonce| != 32 then None
    else
      Some(IssuedChallenge(ChallengeText(Challenge(installation, nonce, now / SECOND)), installation, sha(nonce), now))
  }

  /** A held challenge still says what it said when issued, and is at most 120 seconds old. */
  predicate ChallengeHolds(sha: Hash, c: IssuedChallenge, now: Moment) {
    var read := ReadChallenge(c.raw);
    && read.Some? && read.value.installation == c.installation && sha(read.value.nonce) == c.nonceSha
    && read.value.issuedAt * SECOND == c.issuedAt
    && 0 <= now - c.issuedAt <= 120 * SECOND
  }

  /** Does this signature over this payload verify under the pinned key? */
  type Verifier = (Bytes, Bytes) -> bool

  datatype Observation = Observation(
    receipt: Receipt, digest: Digest, witnessId: string, installation: string, revision: int,
    challengeSha: Digest, payloadSha: Digest, expiresAt: Second)

  /** The statement concerns this witness, this challenge and this moment. */
  predicate StatementHolds(sha: Hash, s: Statement, c: IssuedChallenge, witnessId: string,
                           now: Moment, minimum: Option<int>) {
    && s.witnessId == witnessId && s.installation == c.installation && s.challengeSha == sha(c.raw)
    && (minimum.Some? ==> Positive(minimum.value) && minimum.value <= s.revision)
    && s.issuedAt * SECOND <= now <= s.expiresAt * SECOND
    && 0 < s.expiresAt - s.issuedAt <= 300 && c.issuedAt <= s.issuedAt * SECOND
  }

  function Predecessor(s: Statement): Option<PinnedHead> {
    if s.predecessor.None? then None else Some(PinnedHead(s.predecessor.value.0, s.predecessor.value.1))
  }

  function VerifyStatement(sha: Hash, verifies: Verifier, c: IssuedChallenge, reply: Bytes, receipt: Bytes,
                           witnessId: string, now: Moment, minimum: Option<int>): Option<Observation> {
    if !WitnessName(witnessId) || !ChallengeHolds(sha, c, now) then None
    else
      var e := ReadEnvelope(reply);
      if e.None? || !verifies(e.value.signature, e.value.payload) then None
      else
        var s := ReadStatement(e.value.payload);
        if s.None? || !StatementHolds(sha, s.value, c, witnessId, now, minimum) then None
        else
          var r := VerifyPinned(sha, receipt, PinnedHead(s.value.generation, s.value.headSha), Predecessor(s.value));
          if r.None? then None
          else Some(Observation(r.value, sha(receipt), witnessId, c.installation, s.value.revision,
                                sha(c.raw), sha(e.value.payload), s.value.expiresAt))
  }
}
