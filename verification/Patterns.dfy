/** The shapes the records' text fields must have. */
module Patterns {
  predicate LowerHex(c: char) { '0' <= c <= '9' || 'a' <= c <= 'f' }

  predicate Hex(s: string, length: nat) {
    |s| == length && forall i | 0 <= i < |s| :: LowerHex(s[i])
  }

  /** The hexadecimal text of a SHA-256 digest. */
  type Digest = s: string | Hex(s, 64) witness seq(64, _ => '0')

  /** Installation and transaction identifiers. */
  predicate Token(s: string) { Hex(s, 32) }

  predicate Lower(c: char) { 'a' <= c <= 'z' }
  predicate Letter(c: char) { Lower(c) || 'A' <= c <= 'Z' }
  predicate Number(c: char) { '0' <= c <= '9' }

  /** A lower-case letter, then lower-case letters, digits, underscores and hyphens. */
  predicate Identifier(s: string, least: nat, most: nat) {
    && least <= |s| <= most && s != "" && Lower(s[0])
    && forall i | 0 <= i < |s| :: Lower(s[i]) || Number(s[i]) || s[i] == '_' || s[i] == '-'
  }

  predicate WitnessName(s: string) { Identifier(s, 3, 64) }
  predicate ComponentName(s: string) { Identifier(s, 2, 64) }

  function Split(s: string, mark: char): (parts: seq<string>)
    ensures parts != []
  {
    if s == "" then [""]
    else
      var rest := Split(s[1..], mark);
      if s[0] == mark then [""] + rest else [[s[0]] + rest[0]] + rest[1..]
  }

  predicate Distribution(s: string) {
    forall part <- Split(s, '-') :: part != "" && forall i | 0 <= i < |part| :: Lower(part[i]) || Number(part[i])
  }

  predicate Console(s: string) {
    && 1 <= |s| <= 96 && (Letter(s[0]) || Number(s[0]))
    && forall i | 0 <= i < |s| :: Letter(s[i]) || Number(s[i]) || s[i] in "_.-"
  }

  predicate Name(s: string) {
    && s != "" && !Number(s[0])
    && forall i | 0 <= i < |s| :: Letter(s[i]) || Number(s[i]) || s[i] == '_'
  }

  predicate Target(s: string) {
    var sides := Split(s, ':');
    |sides| == 2 && (forall part <- Split(sides[0], '.') :: Name(part)) && Name(sides[1])
  }

  predicate PathPart(s: string) {
    s != "" && forall i | 0 <= i < |s| :: Letter(s[i]) || Number(s[i]) || s[i] in "_.-"
  }

  /** A slash-separated relative reference. */
  predicate Relative(s: string) { forall part <- Split(s, '/') :: PathPart(part) }

  /** A relative reference that stays below its root. */
  predicate SafeRelative(s: string) {
    Relative(s) && forall part <- Split(s, '/') :: part != "." && part != ".."
  }

  const MAX_GENERATION: int := 9007199254740991  // 2^53 - 1

  predicate Positive(n: int) { 1 <= n <= MAX_GENERATION }
}
