/**
  The two credential generators of the user API. Each joins a fixed number of
  characters, each drawn by `random.choice` from `string.ascii_uppercase +
  string.digits`. The random source is a parameter: `oracle(i)` is the index
  into that 36-character alphabet returned by the `i`-th draw.
 */
module Credentials {

  /** `string.ascii_uppercase + string.digits` */
  const Alphabet: string := "ABCDEFGHIJKLMNOPQRSTUVWXYZ0123456789"

  const InviteCodeLength: nat := 6
  const TokenLength: nat := 16

  /** An index that `random.choice` can pick from the alphabet. */
  type Pick = i: int | 0 <= i < 36

  /** `[A-Z0-9]` */
  predicate IsCredentialChar(c: char) { 'A' <= c <= 'Z' || '0' <= c <= '9' }

  predicate IsCredential(s: string, n: nat) {
    |s| == n && forall k :: 0 <= k < |s| ==> IsCredentialChar(s[k])
  }

  /** The character at index `p`, computed from the character codes. */
  function CharAt(p: Pick): char {
    if p < 26 then ('A' as int + p) as char else ('0' as int + p - 26) as char
  }

  /** The characters of the alphabet are exactly `[A-Z0-9]`, each at one index. */
  lemma AlphabetIsCredentialChars()
    ensures |Alphabet| == 36
    ensures forall p: Pick :: Alphabet[p] == CharAt(p) && IsCredentialChar(Alphabet[p])
    ensures forall p: Pick, q: Pick :: Alphabet[p] == Alphabet[q] ==> p == q
  {
    assert Alphabet == seq(36, (p: int) requires 0 <= p < 36 => CharAt(p));
  }

  /** The index at which a character of `[A-Z0-9]` stands in the alphabet. */
  function IndexOf(c: char): (p: Pick)
    requires IsCredentialChar(c)
    ensures Alphabet[p] == c
  {
    AlphabetIsCredentialChars();
    if 'A' <= c <= 'Z' then (c as int) - ('A' as int) else 26 + (c as int) - ('0' as int)
  }

  /** The string joined from the first `n` draws. */
  function Draw(oracle: nat -> Pick, n: nat): (r: string)
    ensures |r| == n
    ensures forall i :: 0 <= i < n ==> r[i] == Alphabet[oracle(i)]
  {
    if n == 0 then [] else Draw(oracle, n - 1) + [Alphabet[oracle(n - 1)]]
  }

  /** `generate_invite_code` */
  function GenerateInviteCode(oracle: nat -> Pick): (code: string)
    ensures IsCredential(code, InviteCodeLength)
  {
    AlphabetIsCredentialChars();
    Draw(oracle, InviteCodeLength)
  }

  /** `generate_token` */
  function GenerateToken(oracle: nat -> Pick): (token: string)
    ensures IsCredential(token, TokenLength)
  {
    AlphabetIsCredentialChars();
    Draw(oracle, TokenLength)
  }

  /**
    Two runs of draws give the same string exactly when they picked the same
    indices: the generator is one-to-one on the draws, so uniform draws give
    every string its equal share.
   */
  lemma DrawIsInjective(o1: nat -> Pick, o2: nat -> Pick, n: nat)
    ensures Draw(o1, n) == Draw(o2, n) <==> forall i :: 0 <= i < n ==> o1(i) == o2(i)
  {
    AlphabetIsCredentialChars();
    if Draw(o1, n) == Draw(o2, n) {
      forall i | 0 <= i < n ensures o1(i) == o2(i) {
        assert Draw(o1, n)[i] == Draw(o2, n)[i];
      }
    }
    if forall i :: 0 <= i < n ==> o1(i) == o2(i) {
      assert forall i :: 0 <= i < n ==> Draw(o1, n)[i] == Draw(o2, n)[i];
    }
  }

  /** A sequence of draws that spells `s`. */
  function DrawsFor(s: string): (oracle: nat -> Pick)
    requires forall k :: 0 <= k < |s| ==> IsCredentialChar(s[k])
    ensures forall i :: 0 <= i < |s| ==> Alphabet[oracle(i)] == s[i]
  {
    (i: nat) => if i < |s| then IndexOf(s[i]) else 0
  }

  /** Every string of six characters over `[A-Z0-9]` is an invite code some draws produce. */
  lemma EveryInviteCodeReachable(s: string)
    requires IsCredential(s, InviteCodeLength)
    ensures GenerateInviteCode(DrawsFor(s)) == s
  {
    var code := GenerateInviteCode(DrawsFor(s));
    assert forall i :: 0 <= i < |s| ==> code[i] == s[i];
  }

  /** Every string of sixteen characters over `[A-Z0-9]` is a token some draws produce. */
  lemma EveryTokenReachable(s: string)
    requires IsCredential(s, TokenLength)
    ensures GenerateToken(DrawsFor(s)) == s
  {
    var token := GenerateToken(DrawsFor(s));
    assert forall i :: 0 <= i < |s| ==> token[i] == s[i];
  }
}
