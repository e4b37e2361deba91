/**
  The two input validators of the user API: a phone-number acceptor and an
  e-mail acceptor. Each is a `fullmatch` of one regular expression; here each
  regular expression is written out as a "split into parts" predicate over the
  characters of the input, and its consequences are proved as lemmas.
 */
module Validators {

  // ---------------------------------------------------------------------
  // Character classes
  // ---------------------------------------------------------------------

  /** `[0-9]` */
  predicate IsDigit(c: char) { '0' <= c <= '9' }

  /** `[A-Za-z]` */
  predicate IsAsciiLetter(c: char) { 'A' <= c <= 'Z' || 'a' <= c <= 'z' }

  /** `[+0-9]`, the class of the optional leading group of a phone number */
  predicate IsPhoneLeadChar(c: char) { c == '+' || IsDigit(c) }

  /** `[A-Za-z0-9._%+-]`, the class of the part before the `@` */
  predicate IsLocalChar(c: char) {
    IsAsciiLetter(c) || IsDigit(c) || c == '.' || c == '_' || c == '%' || c == '+' || c == '-'
  }

  /** `[A-Za-z0-9.-]`, the class of the part between the `@` and the last dot */
  predicate IsDomainChar(c: char) { IsAsciiLetter(c) || IsDigit(c) || c == '.' || c == '-' }

  /** `[A-Z|a-z]`: inside a character class `|` is a literal bar, not an alternative */
  predicate IsTldChar(c: char) { 'A' <= c <= 'Z' || c == '|' || 'a' <= c <= 'z' }

  /**
    The word characters that matter for `\b`. Every character the e-mail
    pattern can put at either end lies in `[A-Za-z0-9._%+-]` or `[A-Z|a-z]`,
    and of those exactly letters, digits and `_` are word characters, so the
    ASCII class is exact here.
   */
  predicate IsWordChar(c: char) { IsAsciiLetter(c) || IsDigit(c) || c == '_' }

  /** Every character of `s` is in the class `cls`. */
  predicate AllIn(s: string, cls: char -> bool) {
    forall k :: 0 <= k < |s| ==> cls(s[k])
  }

  // ---------------------------------------------------------------------
  // Phone numbers: fullmatch of  (^[+0-9]{1,3})*([0-9]{10,11}$)
  // ---------------------------------------------------------------------

  /** One iteration of the group `(^[+0-9]{1,3})` (without its anchor). */
  predicate IsLeadGroup(g: string) { 1 <= |g| <= 3 && AllIn(g, IsPhoneLeadChar) }

  /** The group `([0-9]{10,11}$)`. */
  predicate IsSubscriberDigits(d: string) { 10 <= |d| <= 11 && AllIn(d, IsDigit) }

  /** `s` is a leading group of `k` characters (none when `k == 0`) followed by the digits. */
  predicate PhoneSplitAt(s: string, k: nat) {
    k <= |s| && (k == 0 || IsLeadGroup(s[..k])) && IsSubscriberDigits(s[k..])
  }

  /** `is_phone_number`: the anchor `^` lets the repeated group match at most once. */
  predicate IsPhoneNumber(s: string) {
    exists k: nat | k <= 3 :: PhoneSplitAt(s, k)
  }

  /** The concatenation of the strings matched by successive iterations of a group. */
  function Concat(parts: seq<string>): (r: string)
    ensures r == [] <==> forall i :: 0 <= i < |parts| ==> parts[i] == []
  {
    if parts == [] then [] else Concat(parts[..|parts| - 1]) + parts[|parts| - 1]
  }

  /**
    Every iteration of `(^[+0-9]{1,3})*` matches a lead group and starts where
    `^` holds, that is at offset 0 of the input.
   */
  ghost predicate AnchoredIterations(parts: seq<string>) {
    forall i :: 0 <= i < |parts| ==> IsLeadGroup(parts[i]) && |Concat(parts[..i])| == 0
  }

  /** The regular expression's match, with the star unrolled into its iterations. */
  ghost predicate PhoneRegexMatches(s: string) {
    exists parts :: AnchoredIterations(parts) && PhoneStarThenDigits(s, parts)
  }

  /** `s` starts with the iterations `parts` and the rest is the digit group. */
  predicate PhoneStarThenDigits(s: string, parts: seq<string>) {
    var p := Concat(parts);
    |p| <= |s| && s[..|p|] == p && IsSubscriberDigits(s[|p|..])
  }

  /** The group under `*` can match at most once, because only one iteration can start at offset 0. */
  lemma AnchorAllowsOneIteration(parts: seq<string>)
    requires AnchoredIterations(parts)
    ensures |parts| <= 1
  {
    if |parts| >= 1 {
      // A second iteration would need `Concat(parts[..1])`, the non-empty first part, to be empty.
      assert parts[..1][0] == parts[0];
    }
  }

  /** The split predicate is exactly the regular expression's language. */
  lemma PhoneNumberIsRegexMatch(s: string)
    ensures IsPhoneNumber(s) <==> PhoneRegexMatches(s)
  {
    if IsPhoneNumber(s) {
      var k: nat :| k <= 3 && PhoneSplitAt(s, k);
      var parts: seq<string> := if k == 0 then [] else [s[..k]];
      if k != 0 {
        assert parts[..0] == [];
        assert Concat(parts) == s[..k];
      }
      assert AnchoredIterations(parts);
      assert PhoneStarThenDigits(s, parts);
    }
    if PhoneRegexMatches(s) {
      var parts :| AnchoredIterations(parts) && PhoneStarThenDigits(s, parts);
      AnchorAllowsOneIteration(parts);
      if parts == [] {
        assert PhoneSplitAt(s, 0);
      } else {
        assert parts[..0] == [];
        assert Concat(parts) == parts[0];
        assert PhoneSplitAt(s, |parts[0]|);
      }
    }
  }

  /**
    Closed form: with `n == |s|` and `k == min(n - 10, 3)`, a phone number is
    a string of 10 to 14 characters whose first `k` characters are in `[+0-9]`
    and whose remaining characters are digits.
   */
  function LeadLength(n: nat): (k: nat)
    requires n >= 10
    ensures k <= 3 && k <= n - 10
  {
    if n - 10 <= 3 then n - 10 else 3
  }

  lemma {:induction false} PhoneNumberClosedForm(s: string)
    ensures IsPhoneNumber(s) <==>
      10 <= |s| <= 14
      && AllIn(s[..LeadLength(|s|)], IsPhoneLeadChar)
      && AllIn(s[LeadLength(|s|)..], IsDigit)
  {
    if IsPhoneNumber(s) {
      var k0: nat :| k0 <= 3 && PhoneSplitAt(s, k0);
      var k := LeadLength(|s|);
      assert k0 <= k;
      forall i | 0 <= i < k ensures IsPhoneLeadChar(s[..k][i]) {
        if i < k0 { assert s[..k][i] == s[..k0][i]; } else { assert s[..k][i] == s[k0..][i - k0]; }
      }
      forall i | 0 <= i < |s| - k ensures IsDigit(s[k..][i]) {
        assert s[k..][i] == s[k0..][i + k - k0];
      }
    }
    if 10 <= |s| <= 14 && AllIn(s[..LeadLength(|s|)], IsPhoneLeadChar) && AllIn(s[LeadLength(|s|)..], IsDigit) {
      assert PhoneSplitAt(s, LeadLength(|s|));
    }
  }

  /** Every phone number has 10 to 14 characters, all in `[+0-9]`, and ends in at least 10 digits. */
  lemma PhoneNumberShape(s: string)
    requires IsPhoneNumber(s)
    ensures 10 <= |s| <= 14
    ensures AllIn(s, IsPhoneLeadChar)
    ensures AllIn(s[|s| - 10..], IsDigit)
    ensures forall i :: 0 <= i < |s| && s[i] == '+' ==> i < 3
  {
    PhoneNumberClosedForm(s);
    var k := LeadLength(|s|);
    forall i | 0 <= i < |s| ensures IsPhoneLeadChar(s[i]) && (i >= k ==> IsDigit(s[i])) {
      if i < k { assert s[i] == s[..k][i]; } else { assert s[i] == s[k..][i - k]; }
    }
    var last := s[|s| - 10..];
    forall i | 0 <= i < |last| ensures IsDigit(last[i]) {
      assert last[i] == s[|s| - 10 + i];
    }
  }

  /** A bare run of 10 or 11 digits is a phone number. */
  lemma BareDigitsArePhoneNumber(s: string)
    requires IsSubscriberDigits(s)
    ensures IsPhoneNumber(s)
  {
    assert s[0..] == s;
    assert PhoneSplitAt(s, 0);
  }

  /** A string holding any character outside `[+0-9]` is rejected. */
  lemma ForeignCharRejected(s: string, i: nat)
    requires i < |s| && !IsPhoneLeadChar(s[i])
    ensures !IsPhoneNumber(s)
  {
    PhoneNumberClosedForm(s);
    var k := if |s| >= 10 then LeadLength(|s|) else 0;
    if i < k { assert s[i] == s[..k][i]; } else { assert s[i] == s[k..][i - k]; }
  }

  /** Sample inputs the pattern accepts: a bare number, and a three-character lead before 10 or 11 digits. */
  lemma PhoneNumberExamples()
    ensures IsPhoneNumber("1234567890")
    ensures IsPhoneNumber("+911234567890")
    ensures IsPhoneNumber("+9112345678901")
  {
    BareDigitsArePhoneNumber("1234567890");
    var a := "+911234567890";
    assert PhoneSplitAt(a, 3) by { assert a[..3] == "+91"; assert a[3..] == "1234567890"; }
    var b := "+9112345678901";
    assert PhoneSplitAt(b, 3) by { assert b[..3] == "+91"; assert b[3..] == "12345678901"; }
  }

  /** Sample inputs the pattern rejects: four leading characters before ten digits, nine digits, a dash. */
  lemma PhoneNumberCounterexamples()
    ensures !IsPhoneNumber("++++1234567890")
    ensures !IsPhoneNumber("123456789")
    ensures !IsPhoneNumber("12345-67890")
  {
    var c := "++++1234567890";
    PhoneNumberClosedForm(c);
    assert c[LeadLength(|c|)..][0] == '+';
    PhoneNumberClosedForm("123456789");
    ForeignCharRejected("12345-67890", 5);
  }

  // ---------------------------------------------------------------------
  // E-mail addresses: fullmatch of  \b[A-Za-z0-9._%+-]+@[A-Za-z0-9.-]+\.[A-Z|a-z]{2,}\b
  // ---------------------------------------------------------------------

  predicate IsLocalPart(l: string) { |l| >= 1 && AllIn(l, IsLocalChar) }

  predicate IsDomainPart(d: string) { |d| >= 1 && AllIn(d, IsDomainChar) }

  predicate IsTldPart(t: string) { |t| >= 2 && AllIn(t, IsTldChar) }

  /**
    `s` splits at the `@` at index `i` and the `.` at index `j` into the three
    parts of the pattern, and both `\b` anchors hold: the first and the last
    character of `s` are word characters.
   */
  predicate EmailSplitAt(s: string, i: nat, j: nat) {
    i < j < |s|
    && s[i] == '@' && s[j] == '.'
    && IsLocalPart(s[..i]) && IsDomainPart(s[i + 1..j]) && IsTldPart(s[j + 1..])
    && IsWordChar(s[0]) && IsWordChar(s[|s| - 1])
  }

  /** `is_email` */
  predicate IsEmail(s: string) {
    exists i: nat, j: nat | i < j < |s| :: EmailSplitAt(s, i, j)
  }

  /** Any three parts of the right classes, with word characters at both ends, form an e-mail. */
  lemma EmailFromParts(l: string, d: string, t: string)
    requires IsLocalPart(l) && IsDomainPart(d) && IsTldPart(t)
    requires IsWordChar(l[0]) && IsWordChar(t[|t| - 1])
    ensures IsEmail(l + "@" + d + "." + t)
  {
    var s := l + "@" + d + "." + t;
    var i, j := |l|, |l| + 1 + |d|;
    assert s[..i] == l && s[i + 1..j] == d && s[j + 1..] == t;
    assert s[0] == l[0] && s[|s| - 1] == t[|t| - 1];
    assert EmailSplitAt(s, i, j);
  }

  /**
    Every e-mail is `L @ D . T` with the three parts of the pattern; its first
    character is in `[A-Za-z0-9_]`, its last is an ASCII letter (the bar is no
    word character) and it has at least six characters.
   */
  lemma EmailDecompose(s: string) returns (l: string, d: string, t: string)
    requires IsEmail(s)
    ensures s == l + "@" + d + "." + t
    ensures IsLocalPart(l) && IsDomainPart(d) && IsTldPart(t)
    ensures IsWordChar(s[0]) && IsAsciiLetter(s[|s| - 1])
    ensures |s| >= 6
  {
    var i: nat, j: nat :| i < j < |s| && EmailSplitAt(s, i, j);
    l, d, t := s[..i], s[i + 1..j], s[j + 1..];
    assert s == l + [s[i]] + d + [s[j]] + t;
    assert s[|s| - 1] == t[|t| - 1];
  }

  /** None of the three classes admits `@`, so an e-mail holds exactly one `@`. */
  lemma EmailHasOneAt(s: string)
    requires IsEmail(s)
    ensures multiset(s)['@'] == 1
  {
    var l, d, t := EmailDecompose(s);
    assert '@' !in l by { forall k | 0 <= k < |l| ensures l[k] != '@' { assert IsLocalChar(l[k]); } }
    assert '@' !in d by { forall k | 0 <= k < |d| ensures d[k] != '@' { assert IsDomainChar(d[k]); } }
    assert '@' !in t by { forall k | 0 <= k < |t| ensures t[k] != '@' { assert IsTldChar(t[k]); } }
    assert multiset(s) == multiset(l) + multiset("@") + multiset(d) + multiset(".") + multiset(t);
  }

  /** The split is unique: `i` is the only `@` and `j` is the last `.` of `s`. */
  lemma EmailSplitUnique(s: string, i: nat, j: nat, i': nat, j': nat)
    requires EmailSplitAt(s, i, j) && EmailSplitAt(s, i', j')
    ensures i == i' && j == j'
    ensures forall k :: 0 <= k < |s| && k != i ==> s[k] != '@'
    ensures forall k :: j < k < |s| ==> s[k] != '.'
  {
    forall i0: nat, j0: nat, k | EmailSplitAt(s, i0, j0) && 0 <= k < |s| && k != i0
      ensures s[k] != '@' && (k > j0 ==> s[k] != '.')
    {
      if k < i0 { assert s[k] == s[..i0][k]; }
      else if k < j0 { assert s[k] == s[i0 + 1..j0][k - i0 - 1]; }
      else if k > j0 { assert s[k] == s[j0 + 1..][k - j0 - 1]; }
    }
  }

  /** Sample inputs: an underscore may open the address, a dot may not. */
  lemma EmailExamples()
    ensures IsEmail("a@x.com")
    ensures IsEmail("_@x.co")
    ensures !IsEmail(".a@x.com")
    ensures !IsEmail("a@x.c")
  {
    EmailFromParts("a", "x", "com");
    assert "a" + "@" + "x" + "." + "com" == "a@x.com";
    EmailFromParts("_", "x", "co");
    assert "_" + "@" + "x" + "." + "co" == "_@x.co";
    if IsEmail(".a@x.com") { var _, _, _ := EmailDecompose(".a@x.com"); }
    if IsEmail("a@x.c") { var _, _, _ := EmailDecompose("a@x.c"); }
  }

  /**
    The evidently intended e-mail acceptor, with the top-level class `[A-Za-z]`:
    the bar can appear only in the top-level part, so excluding it from the
    whole string is the same as excluding it from that class.
   */
  predicate IsEmailIntended(s: string) { IsEmail(s) && '|' !in s }

  lemma IntendedEmailHasLetterTld(s: string, i: nat, j: nat)
    requires EmailSplitAt(s, i, j)
    ensures IsEmailIntended(s) <==> AllIn(s[j + 1..], IsAsciiLetter)
  {
    var l, d, t := s[..i], s[i + 1..j], s[j + 1..];
    assert s == l + [s[i]] + d + [s[j]] + t;
    assert IsEmail(s);
    assert '|' !in l by { forall k | 0 <= k < |l| ensures l[k] != '|' { assert IsLocalChar(l[k]); } }
    assert '|' !in d by { forall k | 0 <= k < |d| ensures d[k] != '|' { assert IsDomainChar(d[k]); } }
    assert ('|' in s) <==> ('|' in t);
    if '|' in t {
      var k :| 0 <= k < |t| && t[k] == '|';
      assert !IsAsciiLetter(t[k]);
    } else {
      forall k | 0 <= k < |t| ensures IsAsciiLetter(t[k]) {
        assert IsTldChar(t[k]);
      }
    }
  }

  /** As written, the bar is accepted in the top-level part; the intended acceptor refuses it. */
  lemma BarAcceptedInTld()
    ensures IsEmail("a@x.|m") && !IsEmailIntended("a@x.|m")
  {
    EmailFromParts("a", "x", "|m");
    assert "a" + "@" + "x" + "." + "|m" == "a@x.|m";
    assert "a@x.|m"[4] == '|';
  }
}
