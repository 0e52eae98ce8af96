/** When a successor proposal is stored, what it is checked against, and what an inspection
    of it insists on. */
module ProposalLaws {
  import opened Wrappers
  import opened Patterns
  import opened Timestamps
  import opened ActiveReceipts
  import opened SlotRecords
  import opened Slots
  import opened SoftwareRoots
  import opened SuccessorProposals
  import opened SlotLaws

  /** Neither path is the other or leads through it. */
  predicate ApartPaths(a: string, b: string) {
    && a != b && !(|a| + 1 <= |b| && b[..|a|] == a && b[|a|] == '/')
    && !(|b| + 1 <= |a| && a[..|b|] == b && a[|b|] == '/')
  }

  lemma OverlapExactly(a: string, b: string)
    ensures Overlap(a, b) <==> !ApartPaths(a, b)
  {
    LeadsThrough(a, b);
    LeadsThrough(b, a);
  }

  lemma LeadsThrough(a: string, b: string)
    ensures a + "/" <= b <==> |a| + 1 <= |b| && b[..|a|] == a && b[|a|] == '/'
  {
    var longer := a + "/";
    if |a| + 1 <= |b| && b[..|a|] == a && b[|a|] == '/' { assert b[..|a| + 1] == b[..|a|] + [b[|a|]]; }
    if longer <= b { assert b[..|a|] == longer[..|a|] && b[|a|] == longer[|a|]; }
  }

  lemma SeparateExactly(prior: Receipt, next: Receipt)
    ensures Separate(prior, next) <==>
            && ApartPaths(prior.stagePath, prior.wheelhousePath) && ApartPaths(prior.stagePath, next.stagePath)
            && ApartPaths(prior.stagePath, next.wheelhousePath) && ApartPaths(prior.wheelhousePath, next.stagePath)
            && ApartPaths(prior.wheelhousePath, next.wheelhousePath) && ApartPaths(next.stagePath, next.wheelhousePath)
  {
    hide ApartPaths, Overlap;
    var paths := [prior.stagePath, prior.wheelhousePath, next.stagePath, next.wheelhousePath];
    forall i, j | 0 <= i < j < 4 ensures Overlap(paths[i], paths[j]) <==> !ApartPaths(paths[i], paths[j]) {
      OverlapExactly(paths[i], paths[j]);
    }
    assert Separate(prior, next) <==> forall i, j | 0 <= i < j < 4 :: !Overlap(paths[i], paths[j]);
    assert paths[0] == prior.stagePath && paths[1] == prior.wheelhousePath;
    assert paths[2] == next.stagePath && paths[3] == next.wheelhousePath;
  }

  // ----------------------------------------------------------------------- request

  /** A lower-case letter and up to 63 more letters, digits, underscores or hyphens. */
  predicate WitnessId(s: string) {
    && 3 <= |s| <= 64 && 'a' <= s[0] <= 'z'
    && forall i | 0 <= i < |s| :: 'a' <= s[i] <= 'z' || '0' <= s[i] <= '9' || s[i] == '_' || s[i] == '-'
  }

  /** Two receipts, the second for other software, that follow each other in generation,
      digest and time. */
  predicate RequestStands(sha: Hash, q: Request) {
    var prior, next := ParseReceipt(q.previous), ParseReceipt(q.successor);
    && TransactionId(q.installation) && WitnessId(q.witnessId) && 1 <= q.revision < 9007199254740991
    && prior.Some? && next.Some?
    && next.value.generation == prior.value.generation + 1 && next.value.previousSha == Some(sha(q.previous))
    && prior.value.recordedAt <= next.value.recordedAt && next.value.transactionId != prior.value.transactionId
    && next.value.stagePath != prior.value.stagePath && next.value.wheelhousePath != prior.value.wheelhousePath
  }

  lemma RequestStandsExactly(sha: Hash, q: Request)
    ensures ValidRequest(sha, q) <==> RequestStands(sha, q)
  {
    hide ParseReceipt;
    if ParseReceipt(q.successor).Some? { ReceiptGeneration(q.successor); }
  }

  lemma ReceiptGeneration(raw: Bytes)
    requires ParseReceipt(raw).Some?
    ensures 1 <= ParseReceipt(raw).value.generation <= 9007199254740991
  {
    hide ParseReceipt, EncodeReceipt, PublisherRows, ConsoleRows, Externals, Hex, SafeRelative, Token;
    ParsesExactlyEncodings(raw, ParseReceipt(raw).value);
  }

  // ---------------------------------------------------------------------- snapshot

  /** The journal, the pointer, the capsule, the pointer it saves and the two receipts all
      tell the same transaction, software, records, generations and times. */
  predicate LocalStory(sha: Hash, f: Files, tx: string, q: Request) {
    && f.selection.Some? && f.capsule.Some? && tx in f.journals
    && var j, s, r := f.journals[tx], ParseSelection(f.selection.value), ParseRecovery(sha, f.capsule.value);
    var prior, next := ParseReceipt(q.previous), ParseReceipt(q.successor);
    && s.Some? && r.Some? && r.value.previous.Some? && prior.Some? && next.Some?
    && var before := ParseSelection(r.value.previous.value);
    && before.Some?
    && j.revision == 2 && j.phase == ActivationIntent && j.previousReceiptSha.Some?
    && j.transactionId == tx && s.value.transactionId == tx && r.value.transactionId == tx
    && next.value.transactionId == tx && before.value.transactionId == prior.value.transactionId
    && r.value.candidateSha == sha(f.selection.value) && next.value.previousSha == Some(sha(q.previous))
    && s.value.stagePath == j.stagePath && next.value.stagePath == j.stagePath
    && next.value.wheelhousePath == j.wheelhousePath && before.value.stagePath == prior.value.stagePath
    && s.value.preparedSha == j.preparedSha && next.value.preparedSha == j.preparedSha
    && s.value.nativeSha == j.nativeSha && next.value.nativeEnvelopeSha == j.nativeSha
    && next.value.registrySha == j.registrySha && next.value.lockSha == j.lockSha
    && before.value.preparedSha == prior.value.preparedSha && before.value.nativeSha == prior.value.nativeEnvelopeSha
    && before.value.generation == prior.value.generation
    && s.value.generation == prior.value.generation + 1 && next.value.generation == prior.value.generation + 1
    && prior.value.recordedAt <= j.recordedAt && j.recordedAt <= next.value.recordedAt
    && ApartPaths(prior.value.stagePath, prior.value.wheelhousePath)
    && ApartPaths(prior.value.stagePath, next.value.stagePath)
    && ApartPaths(prior.value.stagePath, next.value.wheelhousePath)
    && ApartPaths(prior.value.wheelhousePath, next.value.stagePath)
    && ApartPaths(prior.value.wheelhousePath, next.value.wheelhousePath)
    && ApartPaths(next.value.stagePath, next.value.wheelhousePath)
  }

  /** A snapshot is taken exactly of such a root, and holds the digests of what it saw. */
  lemma SnapshotTakenExactly(sha: Hash, journalSha: JournalHash, f: Files, tx: string, q: Request)
    ensures TakeSnapshot(sha, journalSha, f, tx, q).Some? <==> LocalStory(sha, f, tx, q)
    ensures LocalStory(sha, f, tx, q) ==>
              TakeSnapshot(sha, journalSha, f, tx, q)
              == Some(Snapshot(tx, journalSha(f.journals[tx]), sha(f.selection.value), sha(f.capsule.value), q))
  {
    hide ParseSelection, ParseRecovery, ParseReceipt, Separate, ApartPaths;
    var prior, next := ParseReceipt(q.previous), ParseReceipt(q.successor);
    if prior.Some? && next.Some? { SeparateExactly(prior.value, next.value); }
  }

  // -------------------------------------------------------------- persist and inspect

  /** A proposal is stored exactly at a whole second, for a request that stands, when none
      is stored yet, the directories are there, the witness still shows the prior head, the
      root tells that request's story, neither receipt is from the future, and the record,
      and the request in it, fit their sizes. */
  lemma PersistActsExactly(sha: Hash, journalSha: JournalHash, f: Files, c: PersistCall)
    ensures PersistWrites(sha, journalSha, f, c) != [] <==>
            && c.now % 1_000_000 == 0 && RequestStands(sha, c.request) && c.transactionId !in f.proposals
            && c.directoriesPresent && c.priorHeadVisible && LocalStory(sha, f, c.transactionId, c.request)
            && ParseReceipt(c.request.previous).value.recordedAt * 1_000_000 <= c.now
            && ParseReceipt(c.request.successor).value.recordedAt * 1_000_000 <= c.now
            && |RequestText(sha, c.request)| <= 49152
            && |Recorded(sha, journalSha, f, c)| <= 81920
    ensures PersistWrites(sha, journalSha, f, c) != [] ==>
              PersistWrites(sha, journalSha, f, c) == [PutProposal(c.transactionId, Recorded(sha, journalSha, f, c))]
  {
    hide ParseReceipt, TakeSnapshot, ProposalBytes, ValidRequest, LocalStory, RequestStands, RequestText;
    RequestStandsExactly(sha, c.request);
    SnapshotTakenExactly(sha, journalSha, f, c.transactionId, c.request);
    if TakeSnapshot(sha, journalSha, f, c.transactionId, c.request).Some? {
      PrintsExactly(sha, TakeSnapshot(sha, journalSha, f, c.transactionId, c.request).value, c.now / SECOND);
    }
  }

  /** The record a persist call would store of this root. */
  function Recorded(sha: Hash, journalSha: JournalHash, f: Files, c: PersistCall): Bytes {
    hide TakeSnapshot, ProposalBytes;
    var s := TakeSnapshot(sha, journalSha, f, c.transactionId, c.request);
    if s.None? || ProposalBytes(sha, s.value, c.now / SECOND).None? then []
    else ProposalBytes(sha, s.value, c.now / SECOND).value
  }

  lemma PrintsExactly(sha: Hash, s: Snapshot, now: Second)
    ensures ProposalBytes(sha, s, now).Some? <==> ValidRequest(sha, s.request) && |RequestText(sha, s.request)| <= 49152
  {
    hide ValidRequest, RequestText, ProposalFields, ProposalValues;
  }

  /** An inspection reports exactly a stored proposal of this transaction whose root still
      tells its story and still has the pointer, capsule and journal it was stored beside. */
  lemma InspectedExactly(sha: Hash, journalSha: JournalHash, f: Files, tx: string, s: Snapshot)
    ensures InspectLocal(sha, journalSha, f, tx) == Some(s) <==>
            && tx in f.proposals && ParseProposal(sha, f.proposals[tx]).Some?
            && ParseProposal(sha, f.proposals[tx]).value.0 == s && s.transactionId == tx
            && LocalStory(sha, f, tx, s.request)
            && s.journalSha == journalSha(f.journals[tx]) && s.selectionSha == sha(f.selection.value)
            && s.recoverySha == sha(f.capsule.value)
  {
    hide ParseProposal, TakeSnapshot, LocalStory;
    if tx in f.proposals && ParseProposal(sha, f.proposals[tx]).Some? {
      SnapshotTakenExactly(sha, journalSha, f, tx, ParseProposal(sha, f.proposals[tx]).value.0.request);
      StoryHasFiles(sha, f, tx, ParseProposal(sha, f.proposals[tx]).value.0.request);
    }
  }

  lemma StoryHasFiles(sha: Hash, f: Files, tx: string, q: Request)
    ensures LocalStory(sha, f, tx, q) ==> f.selection.Some? && f.capsule.Some? && tx in f.journals
  {
    hide ParseSelection, ParseRecovery, ParseReceipt, ApartPaths;
  }
}
