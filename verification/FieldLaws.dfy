/** What the readers demand of each field, spelt out: orders, shapes and limits. */
module FieldLaws {
  import opened Wrappers
  import opened CanonicalJson
  import opened Patterns
  import opened ActiveReceipts
  import opened WitnessMessages
  import opened SlotRecords
  import opened SlotLaws
  import opened ProposalLaws

  // ------------------------------------------------------------------------- orders

  /** The texts agree before k, and there a has ended or has the smaller character. */
  predicate FirstDiffer(a: string, b: string, k: nat) {
    k <= |a| && k < |b| && a[..k] == b[..k] && (k == |a| || a[k] < b[k])
  }

  /** The first difference decides, and a proper beginning comes first. */
  ghost predicate TextBefore(a: string, b: string) { exists k :: FirstDiffer(a, b, k) }

  lemma DifferLater(a: string, b: string, k: nat)
    requires a != "" && b != "" && a[0] == b[0]
    ensures FirstDiffer(a, b, k + 1) <==> FirstDiffer(a[1..], b[1..], k)
    ensures !FirstDiffer(a, b, 0)
  {
    if k + 1 <= |a| && k + 1 <= |b| {
      assert a[..k + 1] == [a[0]] + a[1..][..k] && b[..k + 1] == [b[0]] + b[1..][..k];
    }
  }

  lemma {:induction false} LessExactly(a: string, b: string)
    ensures Less(a, b) <==> TextBefore(a, b)
  {
    if a == "" || b == "" || a[0] != b[0] {
      assert FirstDiffer(a, b, 0) <==> Less(a, b);
      forall k: nat | k > 0 ensures !FirstDiffer(a, b, k) {
        if k <= |a| && k <= |b| { assert a[..k][0] == a[0] && b[..k][0] == b[0]; }
      }
    } else {
      LessExactly(a[1..], b[1..]);
      hide FirstDiffer;
      if k: nat :| FirstDiffer(a[1..], b[1..], k) { DifferLater(a, b, k); }
      DifferLater(a, b, 0);
      if k: nat :| k > 0 && FirstDiffer(a, b, k) { DifferLater(a, b, k - 1); }
    }
  }

  /** The same for rows of texts. */
  ghost predicate FirstRowDiffer(a: seq<string>, b: seq<string>, k: nat) {
    k <= |a| && k < |b| && a[..k] == b[..k] && (k == |a| || TextBefore(a[k], b[k]))
  }

  ghost predicate RowBefore(a: seq<string>, b: seq<string>) { exists k :: FirstRowDiffer(a, b, k) }

  lemma RowsDifferLater(a: seq<string>, b: seq<string>, k: nat)
    requires a != [] && b != [] && a[0] == b[0]
    ensures FirstRowDiffer(a, b, k + 1) <==> FirstRowDiffer(a[1..], b[1..], k)
    ensures !FirstRowDiffer(a, b, 0)
  {
    hide TextBefore;
    if k + 1 <= |a| && k + 1 <= |b| {
      assert a[..k + 1] == [a[0]] + a[1..][..k] && b[..k + 1] == [b[0]] + b[1..][..k];
    }
    NotBeforeItself(a[0]);
  }

  lemma NotBeforeItself(a: string)
    ensures !TextBefore(a, a)
  {
  }

  lemma {:induction false} RowLessExactly(a: seq<string>, b: seq<string>)
    ensures RowLess(a, b) <==> RowBefore(a, b)
  {
    hide TextBefore, Less;
    if a == [] || b == [] || a[0] != b[0] {
      if a != [] && b != [] { LessExactly(a[0], b[0]); }
      assert FirstRowDiffer(a, b, 0) <==> RowLess(a, b);
      forall k: nat | k > 0 ensures !FirstRowDiffer(a, b, k) {
        if k <= |a| && k <= |b| { assert a[..k][0] == a[0] && b[..k][0] == b[0]; }
      }
    } else {
      RowLessExactly(a[1..], b[1..]);
      LessExactly(a[0], b[0]);
      NotBeforeItself(a[0]);
      hide FirstRowDiffer;
      if k: nat :| FirstRowDiffer(a[1..], b[1..], k) { RowsDifferLater(a, b, k); }
      RowsDifferLater(a, b, 0);
      if k: nat :| k > 0 && FirstRowDiffer(a, b, k) { RowsDifferLater(a, b, k - 1); }
    }
  }

  // ------------------------------------------------------------------------ splitting

  /** The parts with this mark between them. */
  function Joined(parts: seq<string>, mark: char): string {
    if parts == [] then "" else if |parts| == 1 then parts[0] else parts[0] + [mark] + Joined(parts[1..], mark)
  }

  /** Splitting at a mark gives the one non-empty list of texts without that mark that
      joins to the whole. */
  lemma {:induction false} SplitExactly(s: string, mark: char, parts: seq<string>)
    ensures Split(s, mark) == parts <==>
            parts != [] && Joined(parts, mark) == s && forall part <- parts :: mark !in part
    decreases |s|
  {
    SplitJoins(s, mark);
    if parts != [] && Joined(parts, mark) == s && forall part <- parts :: mark !in part { JoinedSplits(parts, mark); }
  }

  lemma {:induction false} SplitJoins(s: string, mark: char)
    ensures Joined(Split(s, mark), mark) == s && forall part <- Split(s, mark) :: mark !in part
  {
    hide Joined;
    if s == "" {
      OneJoined("", mark);
    } else {
      SplitJoins(s[1..], mark);
      LongerFirst(Split(s[1..], mark), s[0], mark);
      EmptyFirst(Split(s[1..], mark), mark);
      assert s == [s[0]] + s[1..];
    }
  }

  lemma OneJoined(part: string, mark: char)
    ensures Joined([part], mark) == part
  {
  }

  lemma EmptyFirst(parts: seq<string>, mark: char)
    requires parts != []
    ensures Joined([""] + parts, mark) == [mark] + Joined(parts, mark)
  {
    assert ([""] + parts)[1..] == parts;
  }

  lemma LongerFirst(parts: seq<string>, c: char, mark: char)
    requires parts != []
    ensures Joined([[c] + parts[0]] + parts[1..], mark) == [c] + Joined(parts, mark)
  {
    assert ([[c] + parts[0]] + parts[1..])[1..] == parts[1..];
    var after := Joined(parts[1..], mark);
    assert [c] + parts[0] + [mark] + after == [c] + (parts[0] + [mark] + after);
  }

  lemma {:induction false} JoinedSplits(parts: seq<string>, mark: char)
    requires parts != [] && forall part <- parts :: mark !in part
    ensures Split(Joined(parts, mark), mark) == parts
    decreases |parts|
  {
    assert parts == [parts[0]] + parts[1..];
    if |parts| == 1 {
      UnmarkedSplits(parts[0], mark, []);
      assert parts[0] + "" == parts[0];
    } else {
      JoinedSplits(parts[1..], mark);
      var rest := Joined(parts[1..], mark);
      assert ([mark] + rest)[1..] == rest;
      assert Split([mark] + rest, mark) == [""] + parts[1..];
      UnmarkedBefore(parts[0], mark, [mark] + rest);
      assert parts[0] + [mark] + rest == parts[0] + ([mark] + rest);
      assert parts[0] + "" == parts[0] && ([""] + parts[1..])[1..] == parts[1..];
    }
  }

  lemma UnmarkedSplits(part: string, mark: char, none: seq<string>)
    requires mark !in part
    ensures Split(part, mark) == [part]
  {
    UnmarkedBefore(part, mark, "");
    assert part + "" == part;
  }

  lemma {:induction false} UnmarkedBefore(part: string, mark: char, rest: string)
    requires mark !in part
    ensures Split(part + rest, mark) == [part + Split(rest, mark)[0]] + Split(rest, mark)[1..]
  {
    if part == "" {
      assert part + rest == rest;
      assert part + Split(rest, mark)[0] == Split(rest, mark)[0];
    } else {
      var tail := part[1..];
      assert part == [part[0]] + tail && part[0] in part;
      UnmarkedBefore(tail, mark, rest);
      assert (part + rest)[1..] == tail + rest && (part + rest)[0] == part[0];
      assert [part[0]] + (tail + Split(rest, mark)[0]) == part + Split(rest, mark)[0];
    }
  }

  // --------------------------------------------------------------------- shapes

  /** The text is made of parts, each of this kind, with the mark between them. */
  ghost predicate MadeOf(s: string, mark: char, good: string -> bool) {
    exists parts :: PartsOf(s, mark, good, parts)
  }

  predicate PartsOf(s: string, mark: char, good: string -> bool, parts: seq<string>) {
    parts != [] && Joined(parts, mark) == s && forall part <- parts :: good(part)
  }

  lemma MadeOfExactly(s: string, mark: char, good: string -> bool)
    requires forall part | good(part) :: mark !in part
    ensures (forall part <- Split(s, mark) :: good(part)) <==> MadeOf(s, mark, good)
  {
    hide Split, Joined;
    SplitExactly(s, mark, Split(s, mark));
    if forall part <- Split(s, mark) :: good(part) { assert PartsOf(s, mark, good, Split(s, mark)); }
    if parts :| PartsOf(s, mark, good, parts) { SplitExactly(s, mark, parts); }
  }

  /** A part of a reference: letters, digits, underscores, dots and hyphens. */
  predicate PathStep(s: string) { s != "" && AllPlain(s) }

  /** Such a part that neither stays nor steps upwards. */
  predicate DownStep(s: string) { PathStep(s) && s != "." && s != ".." }

  predicate Word(s: string) { s != "" && forall i | 0 <= i < |s| :: 'a' <= s[i] <= 'z' || '0' <= s[i] <= '9' }

  predicate PythonName(s: string) {
    && s != "" && !('0' <= s[0] <= '9')
    && forall i | 0 <= i < |s| ::
         'a' <= s[i] <= 'z' || 'A' <= s[i] <= 'Z' || '0' <= s[i] <= '9' || s[i] == '_'
  }

  /** A module path, a colon and a name in it. */
  ghost predicate EntryPoint(s: string) { exists path, name :: EntryParts(s, path, name) }

  ghost predicate EntryParts(s: string, path: string, name: string) {
    s == path + ":" + name && MadeOf(path, '.', PythonName) && PythonName(name)
  }

  predicate CommandName(s: string) {
    && 1 <= |s| <= 96 && s[0] !in "_.-"
    && forall i | 0 <= i < |s| ::
         'a' <= s[i] <= 'z' || 'A' <= s[i] <= 'Z' || '0' <= s[i] <= '9' || s[i] in "_.-"
  }

  predicate Component(s: string) {
    && 2 <= |s| <= 64 && 'a' <= s[0] <= 'z'
    && forall i | 0 <= i < |s| :: 'a' <= s[i] <= 'z' || '0' <= s[i] <= '9' || s[i] == '_' || s[i] == '-'
  }

  lemma RelativeExactly(s: string)
    ensures Relative(s) <==> MadeOf(s, '/', PathStep)
  {
    hide Split, MadeOf;
    forall part ensures PathStep(part) <==> PathPart(part) {}
    MadeOfExactly(s, '/', PathStep);
  }

  lemma SafeExactly(s: string)
    ensures SafeRelative(s) <==> MadeOf(s, '/', DownStep)
  {
    hide Split, MadeOf;
    MadeOfExactly(s, '/', DownStep);
    forall part <- Split(s, '/') ensures DownStep(part) <==> PathPart(part) && part != "." && part != ".." {}
    if forall part <- Split(s, '/') :: DownStep(part) {
      forall part <- Split(s, '/') ensures PathPart(part) && part != "." && part != ".." { assert DownStep(part); }
    }
  }

  lemma DistributionExactly(s: string)
    ensures Distribution(s) <==> MadeOf(s, '-', Word)
  {
    hide Split, MadeOf;
    forall part ensures Word(part) <==> part != "" && forall i | 0 <= i < |part| :: Lower(part[i]) || Number(part[i]) {}
    MadeOfExactly(s, '-', Word);
  }

  lemma CommandExactly(s: string)
    ensures Console(s) <==> CommandName(s)
  {
    if Console(s) || CommandName(s) {
      var c := s[0];
      assert c in "_.-" <==> c == '_' || c == '.' || c == '-';
    }
  }

  lemma ComponentExactly(s: string)
    ensures ComponentName(s) <==> Component(s)
  {
  }

  lemma NameExactly(s: string)
    ensures Name(s) <==> PythonName(s)
    ensures Name(s) ==> ':' !in s && '.' !in s
  {
  }

  lemma TargetExactly(s: string)
    ensures Target(s) <==> EntryPoint(s)
  {
    hide Split, MadeOf, Name, PythonName;
    forall part ensures (Name(part) <==> PythonName(part)) && (Name(part) ==> ':' !in part && '.' !in part) {
      NameExactly(part);
    }
    forall path ensures (forall part <- Split(path, '.') :: Name(part)) <==> MadeOf(path, '.', PythonName) {
      MadeOfExactly(path, '.', PythonName);
    }
    if Target(s) {
      var sides := Split(s, ':');
      SplitExactly(s, ':', sides);
      TwoJoined(sides[0], sides[1], ':');
      assert sides == [sides[0], sides[1]];
      assert EntryParts(s, sides[0], sides[1]);
    }
    if path, name :| EntryParts(s, path, name) {
      TwoJoined(path, name, ':');
      DottedHasNoColon(path);
      SplitExactly(s, ':', [path, name]);
    }
  }

  lemma TwoJoined(a: string, b: string, mark: char)
    ensures Joined([a, b], mark) == a + [mark] + b
  {
    assert [a, b][1..] == [b];
  }

  lemma DottedHasNoColon(path: string)
    requires MadeOf(path, '.', PythonName)
    ensures ':' !in path
  {
    var parts :| PartsOf(path, '.', PythonName, parts);
    JoinedWithout(parts, '.', ':');
  }

  lemma {:induction false} JoinedWithout(parts: seq<string>, mark: char, c: char)
    requires c != mark && forall part <- parts :: c !in part
    ensures c !in Joined(parts, mark)
  {
    if |parts| > 1 { JoinedWithout(parts[1..], mark, c); }
  }

  // -------------------------------------------------------------------- records

  predicate OptionalSha(text: Option<string>) { text.Some? ==> Sha256(text.value) }

  predicate Countable(n: int) { 1 <= n <= 9007199254740991 }

  /** At most 32 rows of a component and a digest, ascending, no component twice. */
  ghost predicate PublisherTable(rows: seq<seq<string>>) {
    && |rows| <= 32
    && (forall row <- rows :: |row| == 2 && Component(row[0]) && Sha256(row[1]))
    && (forall i | 0 < i < |rows| :: RowBefore(rows[i - 1], rows[i]))
    && forall i, j | 0 <= i < j < |rows| :: rows[i][0] != rows[j][0]
  }

  /** At most 32 rows of a distribution, a command and where it starts, ascending, no
      command twice. */
  ghost predicate CommandTable(rows: seq<seq<string>>) {
    && |rows| <= 32
    && (forall row <- rows :: |row| == 3 && MadeOf(row[0], '-', Word) && CommandName(row[1]) && EntryPoint(row[2]))
    && (forall i | 0 < i < |rows| :: RowBefore(rows[i - 1], rows[i]))
    && forall i, j | 0 <= i < j < |rows| :: rows[i][1] != rows[j][1]
  }

  ghost predicate DistributionList(names: seq<string>) {
    && |names| <= 256 && (forall name <- names :: MadeOf(name, '-', Word))
    && forall i | 0 < i < |names| :: TextBefore(names[i - 1], names[i])
  }

  lemma RowsExactly(rows: seq<seq<string>>)
    ensures RowsAscend(rows) <==> forall i | 0 < i < |rows| :: RowBefore(rows[i - 1], rows[i])
  {
    hide RowLess, RowBefore;
    forall i | 0 < i < |rows| ensures RowLess(rows[i - 1], rows[i]) <==> RowBefore(rows[i - 1], rows[i]) {
      RowLessExactly(rows[i - 1], rows[i]);
    }
  }

  lemma PublishersExactly(rows: seq<seq<string>>)
    ensures PublisherRows(rows) <==> PublisherTable(rows)
  {
    hide RowsAscend, RowBefore, Component, ComponentName, Hex, Sha256;
    RowsExactly(rows);
    forall row <- rows | |row| == 2
      ensures ComponentName(row[0]) && Hex(row[1], 64) <==> Component(row[0]) && Sha256(row[1])
    {
      ComponentExactly(row[0]);
      Sha256Exactly(row[1]);
    }
  }

  lemma CommandsExactly(rows: seq<seq<string>>)
    ensures ConsoleRows(rows) <==> CommandTable(rows)
  {
    hide RowsAscend, RowBefore, Distribution, MadeOf, Console, CommandName, Target, EntryPoint;
    RowsExactly(rows);
    forall row <- rows | |row| == 3
      ensures Distribution(row[0]) && Console(row[1]) && Target(row[2])
              <==> MadeOf(row[0], '-', Word) && CommandName(row[1]) && EntryPoint(row[2])
    {
      DistributionExactly(row[0]);
      CommandExactly(row[1]);
      TargetExactly(row[2]);
    }
  }

  lemma ListExactly(names: seq<string>)
    ensures Externals(names) <==> DistributionList(names)
  {
    hide Less, TextBefore, Distribution, MadeOf;
    forall name <- names ensures Distribution(name) <==> MadeOf(name, '-', Word) { DistributionExactly(name); }
    forall i | 0 < i < |names| ensures Less(names[i - 1], names[i]) <==> TextBefore(names[i - 1], names[i]) {
      LessExactly(names[i - 1], names[i]);
    }
  }

  /** A receipt whose every field has its shape. */
  ghost predicate ReceiptFit(r: Receipt) {
    && Countable(r.generation) && (r.generation == 1 <==> r.previousSha.None?) && OptionalSha(r.previousSha)
    && TransactionId(r.transactionId) && MadeOf(r.stagePath, '/', DownStep) && MadeOf(r.wheelhousePath, '/', DownStep)
    && Sha256(r.preparedSha) && Sha256(r.registrySha) && Sha256(r.lockSha)
    && Sha256(r.nativeEnvelopeSha) && Sha256(r.nativePayloadSha) && Sha256(r.pipInventorySha)
    && PublisherTable(r.publisherDigests) && CommandTable(r.consoleTargets)
    && DistributionList(r.externalDistributions)
  }

  lemma ReceiptFitExactly(r: Receipt)
    ensures ValidReceipt(r) <==> ReceiptFit(r)
  {
    hide Hex, Sha256, TransactionId, Token, MadeOf, SafeRelative, PublisherTable, PublisherRows, CommandTable,
         ConsoleRows, Externals, DistributionList;
    TransactionIdIsToken(r.transactionId);
    SafeExactly(r.stagePath);
    SafeExactly(r.wheelhousePath);
    Sha256Exactly(r.preparedSha);
    Sha256Exactly(r.registrySha);
    Sha256Exactly(r.lockSha);
    Sha256Exactly(r.nativeEnvelopeSha);
    Sha256Exactly(r.nativePayloadSha);
    Sha256Exactly(r.pipInventorySha);
    if r.previousSha.Some? { Sha256Exactly(r.previousSha.value); }
    PublishersExactly(r.publisherDigests);
    CommandsExactly(r.consoleTargets);
    ListExactly(r.externalDistributions);
  }

  /** A receipt comes back from its own text exactly when its fields fit, in 16 KiB. */
  lemma ReceiptAcceptedExactly(r: Receipt)
    ensures ParseReceipt(EncodeReceipt(r)) == Some(r) <==> ReceiptFit(r) && |EncodeReceipt(r)| <= 16384
  {
    hide ParseReceipt, EncodeReceipt, ValidReceipt, ReceiptFit;
    ParsesExactlyEncodings(EncodeReceipt(r), r);
    ReceiptFitExactly(r);
  }

  lemma SelectionAcceptedExactly(s: Selection)
    ensures ParseSelection(SelectionBytes(s)) == Some(s) <==>
            && TransactionId(s.transactionId) && MadeOf(s.stagePath, '/', PathStep)
            && Sha256(s.preparedSha) && Sha256(s.nativeSha) && Countable(s.generation)
            && |SelectionBytes(s)| <= 8192
  {
    hide ParseSelection, SelectionBytes, TransactionId, Token, Relative, MadeOf, Hex, Sha256;
    ParsesExactlySelections(SelectionBytes(s), s);
    TransactionIdIsToken(s.transactionId);
    RelativeExactly(s.stagePath);
    Sha256Exactly(s.preparedSha);
    Sha256Exactly(s.nativeSha);
  }

  lemma RecoveryAcceptedExactly(sha: Hash, r: Recovery)
    ensures ParseRecovery(sha, RecoveryBytes(r)) == Some(r) <==>
            && TransactionId(r.transactionId) && Sha256(r.candidateSha)
            && (r.previous.None? ==> r.previousSha.None?)
            && (r.previous.Some? ==>
                  ParseSelection(r.previous.value).Some? && r.previousSha == Some(sha(r.previous.value)))
            && |RecoveryBytes(r)| <= 8192
  {
    hide ParseSelection, ParseRecovery, RecoveryBytes, TransactionId, Token, Hex, Sha256;
    ParsesExactlyRecoveries(sha, RecoveryBytes(r), r);
    TransactionIdIsToken(r.transactionId);
    Sha256Exactly(r.candidateSha);
  }

  lemma ChallengeAcceptedExactly(c: Challenge)
    ensures ReadChallenge(ChallengeText(c)) == Some(c) <==>
            TransactionId(c.installation) && |c.nonce| == 32
  {
    hide ReadChallenge, ChallengeText, TransactionId, Token;
    ReadsExactlyChallenges(ChallengeText(c), c);
    TransactionIdIsToken(c.installation);
  }

  lemma StatementAcceptedExactly(s: Statement)
    ensures ReadStatement(StatementText(s)) == Some(s) <==>
            && Sha256(s.challengeSha) && Countable(s.generation) && Sha256(s.headSha)
            && TransactionId(s.installation) && WitnessId(s.witnessId) && Countable(s.revision)
            && (s.predecessor.Some? ==> Countable(s.predecessor.value.0) && Sha256(s.predecessor.value.1))
  {
    hide ReadStatement, StatementText, TransactionId, Token, Hex, Sha256;
    ReadsExactlyStatements(StatementText(s), s);
    TransactionIdIsToken(s.installation);
    Sha256Exactly(s.challengeSha);
    Sha256Exactly(s.headSha);
    if s.predecessor.Some? { Sha256Exactly(s.predecessor.value.1); }
  }
}
