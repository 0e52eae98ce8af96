/** The witness service: a transactional compare-and-swap over one head row per
    installation, and a table of nonces already answered.

    Authorization answers, the signer and storage failures are inputs of each call.
    The database serializes transactions, so a run of the service is a sequence of
    calls. SHA-256 is any function from bytes to digests. */
module CheckpointStore {
  import opened Wrappers
  import opened CanonicalJson
  import opened Patterns
  import opened Timestamps
  import opened ActiveReceipts
  import opened WitnessMessages

  datatype Row = Row(
    installation: string,
    revision: int,
    generation: int,
    digest: string,
    previousGeneration: Option<int>,
    previousSha: Option<string>)

  datatype Checkpoint = Checkpoint(
    installation: string, revision: int, generation: int, digest: string, previousSha: Option<string>)

  type Heads = map<string, Row>
  type Nonces = map<(string, string), string>
  datatype Tables = Tables(heads: Heads, issued: Nonces)

  /** What every read of a head row insists on. */
  predicate SoundRow(row: Row) {
    && Hex(row.digest, 64) && Positive(row.revision) && Positive(row.generation)
    && (row.generation == 1 ==> row.previousGeneration.None? && row.previousSha.None?)
    && (row.generation > 1 ==> row.previousGeneration == Some(row.generation - 1))
    && (row.previousSha.Some? ==> Hex(row.previousSha.value, 64))
  }

  /** The CHECK constraints of the head table. */
  predicate SchemaAllows(row: Row) {
    row.revision >= 1 && row.generation >= 1 && (row.previousGeneration.None? <==> row.previousSha.None?)
  }

  function Read(row: Row): Checkpoint {
    Checkpoint(row.installation, row.revision, row.generation, row.digest, row.previousSha)
  }

  /** The database statement that raises, if any. */
  datatype Fault = NoFault | OnBegin | OnRead | OnWrite | OnCommit

  // ------------------------------------------------------------------ commit

  datatype CommitCall = CommitCall(
    installation: string, receipt: Bytes, mayCommit: bool, mayEnroll: bool, fault: Fault)

  /** The row a commit leaves behind, or nothing when it is refused. */
  function NextRow(sha: Hash, heads: Heads, call: CommitCall): Option<Row> {
    var parsed, digest := ParseReceipt(call.receipt), sha(call.receipt);
    if !Token(call.installation) || parsed.None? || !call.mayCommit || !call.fault.NoFault? then None
    else if call.installation !in heads then
      if parsed.value.generation != 1 || parsed.value.previousSha.Some? || !call.mayEnroll then None
      else Some(Row(call.installation, 1, 1, digest, None, None))
    else
      var existing := heads[call.installation];
      if !SoundRow(existing) || existing.generation >= MAX_GENERATION || existing.revision >= MAX_GENERATION
         || parsed.value.generation != existing.generation + 1
         || parsed.value.previousSha != Some(existing.digest) then None
      else Some(Row(call.installation, existing.revision + 1, parsed.value.generation, digest,
                    Some(existing.generation), Some(existing.digest)))
  }

  // ------------------------------------------------------------------ answer

  datatype AnswerCall = AnswerCall(
    challenge: Bytes, mayRead: bool, now: Moment, fault: Fault, sign: Bytes -> Option<Bytes>)

  /** One challenge the service committed itself to answering. */
  datatype Answer = Answer(challenge: Bytes, installation: string, nonceSha: Digest, at: Second, head: Row)

  /** What the purge leaves: rows whose stored text does not sort before the cutoff. */
  function Kept(issued: Nonces, cutoff: Second): Nonces {
    map key | key in issued && !Less(issued[key], Stamp(cutoff)) :: issued[key]
  }

  function Answered(sha: Hash, t: Tables, call: AnswerCall): Option<Answer> {
    hide ReadChallenge;
    var c := ReadChallenge(call.challenge);
    if call.now % SECOND != 0 || c.None? || !call.mayRead || !call.fault.NoFault? then None
    else
      var at, installation, nonceSha := call.now / SECOND, c.value.installation, sha(c.value.nonce);
      if !(0 <= at - c.value.issuedAt <= 120) || at < 300 || (installation, nonceSha) in Kept(t.issued, at - 300)
         || installation !in t.heads || !SoundRow(t.heads[installation]) then None
      else Some(Answer(call.challenge, installation, nonceSha, at, t.heads[installation]))
  }

  function Recorded(issued: Nonces, a: Answer): Nonces
    requires a.at >= 300
  {
    Kept(issued, a.at - 300)[(a.installation, a.nonceSha) := Stamp(a.at)]
  }

  /** The statement signed for an answer, unless its expiry leaves the calendar. */
  function StatementOf(sha: Hash, witnessId: string, a: Answer): Option<Statement> {
    if a.at + 60 >= EndOfTime() then None
    else
      Some(Statement(
        sha(a.challenge), a.at + 60, a.head.generation, a.head.digest, a.installation, a.at,
        if a.head.previousSha.None? then None else Some((a.head.generation - 1, a.head.previousSha.value)),
        witnessId, a.head.revision))
  }

  function Reply(sha: Hash, witnessId: string, a: Answer, sign: Bytes -> Option<Bytes>): Option<Bytes> {
    var s := StatementOf(sha, witnessId, a);
    if s.None? || |StatementText(s.value)| > MAX_PAYLOAD then None
    else
      var signature := sign(StatementText(s.value));
      if signature.None? || |signature.value| != 64 then None
      else Some(EnvelopeText(Envelope(StatementText(s.value), signature.value)))
  }

  class MonotonicCheckpointStore {
    const witnessId: string
    const sha: Hash
    var heads: Heads
    var issued: Nonces

    constructor (witnessId: string, sha: Hash)
      requires WitnessName(witnessId)
      ensures this.witnessId == witnessId && this.sha == sha && heads == map[] && issued == map[]
    {
      this.witnessId, this.sha := witnessId, sha;
      heads, issued := map[], map[];
    }

    /** Genesis or strict successor; a refusal at any point leaves the heads alone. */
    method CommitReceipt(call: CommitCall) returns (committed: Option<Checkpoint>)
      modifies this`heads
      ensures var next := NextRow(sha, old(heads), call);
              if next.None? then committed.None? && heads == old(heads)
              else committed == Some(Read(next.value)) && heads == old(heads)[call.installation := next.value]
    {
      hide ParseReceipt, Hex, Positive, Token;
      committed := None;
      var parsed := ParseReceipt(call.receipt);
      if !Token(call.installation) || parsed.None? || !call.mayCommit { return; }
      var digest := sha(call.receipt);
      var saved := heads;
      if call.fault.OnBegin? || call.fault.OnRead? { return; }
      var revision := 1;
      if call.installation !in heads {
        if parsed.value.generation != 1 || parsed.value.previousSha.Some? || !call.mayEnroll { return; }
        heads := heads[call.installation := Row(call.installation, 1, 1, digest, None, None)];
      } else {
        var existing := heads[call.installation];
        if !SoundRow(existing) || existing.generation >= MAX_GENERATION || existing.revision >= MAX_GENERATION
           || parsed.value.generation != existing.generation + 1
           || parsed.value.previousSha != Some(existing.digest) { return; }
        revision := existing.revision + 1;
        heads := heads[call.installation :=
          Row(call.installation, revision, parsed.value.generation, digest,
              Some(existing.generation), Some(existing.digest))];
      }
      if call.fault.OnWrite? || call.fault.OnCommit? {
        heads := saved;
        return;
      }
      committed := Some(Checkpoint(call.installation, revision, parsed.value.generation, digest,
                                   parsed.value.previousSha));
    }

    /** Records the nonce, then signs the head it read; only the second half may fail alone. */
    method AnswerChallenge(call: AnswerCall) returns (reply: Option<Bytes>)
      modifies this`issued
      ensures var a := Answered(sha, Tables(heads, old(issued)), call);
              if a.None? then reply.None? && issued == old(issued)
              else reply == Reply(sha, witnessId, a.value, call.sign) && issued == Recorded(old(issued), a.value)
    {
      hide ReadChallenge, Reply, SoundRow, Stamp, Less, Kept, EndOfTime, StatementOf, Token, Hex;
      reply := None;
      if call.now % SECOND != 0 { return; }
      var at := call.now / SECOND;
      var c := ReadChallenge(call.challenge);
      if c.None? || !(0 <= at - c.value.issuedAt <= 120) || !call.mayRead { return; }
      var installation, nonceSha := c.value.installation, sha(c.value.nonce);
      var saved := issued;
      if call.fault.OnBegin? || at < 300 { return; }
      issued := Kept(issued, at - 300);
      if (installation, nonceSha) in issued || call.fault.OnRead?
         || installation !in heads || !SoundRow(heads[installation]) {
        issued := saved;
        return;
      }
      var head := heads[installation];
      issued := issued[(installation, nonceSha) := Stamp(at)];
      if call.fault.OnWrite? || call.fault.OnCommit? {
        issued := saved;
        return;
      }
      reply := Reply(sha, witnessId, Answer(call.challenge, installation, nonceSha, at, head), call.sign);
    }
  }

  // -------------------------------------------------------------------- runs

  datatype Call = Commit(commit: CommitCall) | Ask(ask: AnswerCall)

  function Step(sha: Hash, t: Tables, call: Call): Tables {
    match call
    case Commit(c) =>
      var next := NextRow(sha, t.heads, c);
      if next.None? then t else t.(heads := t.heads[c.installation := next.value])
    case Ask(c) =>
      var a := Answered(sha, t, c);
      if a.None? then t else t.(issued := Recorded(t.issued, a.value))
  }

  /** The tables after serving these calls, starting from an empty database. */
  function After(sha: Hash, calls: seq<Call>): Tables {
    if calls == [] then Tables(map[], map[])
    else Step(sha, After(sha, calls[..|calls| - 1]), calls[|calls| - 1])
  }

  /** The receipts accepted for an installation, oldest first. */
  function Accepted(sha: Hash, calls: seq<Call>, installation: string): seq<Bytes> {
    if calls == [] then []
    else
      var earlier, last := calls[..|calls| - 1], calls[|calls| - 1];
      Accepted(sha, earlier, installation) +
      if last.Commit? && last.commit.installation == installation
         && NextRow(sha, After(sha, earlier).heads, last.commit).Some? then [last.commit.receipt] else []
  }

  /** The answer the k-th call of a run committed, if it did. */
  function AnswerAt(sha: Hash, calls: seq<Call>, k: nat): Option<Answer>
    requires k < |calls|
  {
    if calls[k].Ask? then Answered(sha, After(sha, calls[..k]), calls[k].ask) else None
  }
}
