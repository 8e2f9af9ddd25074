/** The field validator of the data-entry form: the duplicate-username rule
    (a substring test against every stored username) and the phone rule
    (the pattern `^[2-9]\d{2}-\d{3}-\d{4}` tried with `re.match`, so it is
    anchored at the start only). */
module Validation {

  /** The outcome of a validation. The program returns False for both
      failures and tells them apart only by the warning it shows. */
  datatype Verdict = Accepted | DuplicateUsername | InvalidPhone

  // ---------------------------------------------------------------------
  // Substring test (Python's `needle in hay` on strings)
  // ---------------------------------------------------------------------

  /** `needle` starts at position `i` of `hay`. */
  predicate OccursAt(needle: string, hay: string, i: nat)
    requires i <= |hay|
  {
    needle <= hay[i..]
  }

  /** Reference definition: `needle` is a contiguous part of `hay`. */
  predicate IsSubstring(needle: string, hay: string)
  {
    exists i :: 0 <= i <= |hay| && OccursAt(needle, hay, i)
  }

  /** The search the program relies on: try every start position in turn. */
  function Contains(needle: string, hay: string): (b: bool)
    ensures b <==> IsSubstring(needle, hay)
  {
    if needle <= hay then
      assert OccursAt(needle, hay, 0);
      true
    else if hay == [] then
      false
    else
      var rest := Contains(needle, hay[1..]);
      if rest then
        var i :| 0 <= i <= |hay[1..]| && OccursAt(needle, hay[1..], i);
        assert hay[1..][i..] == hay[i + 1..];
        assert OccursAt(needle, hay, i + 1);
        true
      else
        assert forall i :: 1 <= i <= |hay| ==> hay[1..][i - 1..] == hay[i..];
        assert forall i :: 1 <= i <= |hay| && OccursAt(needle, hay, i) ==> OccursAt(needle, hay[1..], i - 1);
        false
  }

  /** The empty string is part of every string. */
  lemma EmptyIsSubstring(hay: string)
    ensures IsSubstring([], hay)
  {
    assert OccursAt([], hay, 0);
  }

  /** A string longer than `hay` is never part of it. */
  lemma LongerIsNotSubstring(needle: string, hay: string)
    requires |needle| > |hay|
    ensures !IsSubstring(needle, hay)
  {
    forall i | 0 <= i <= |hay| ensures !OccursAt(needle, hay, i) {
      assert |hay[i..]| < |needle|;
    }
  }

  // ---------------------------------------------------------------------
  // Phone pattern (`re.match('^[2-9]\d{2}-\d{3}-\d{4}', phone)`)
  // ---------------------------------------------------------------------

  /** One position of a regular expression without repetition: a character
      range such as `[2-9]` or `\d`, or a literal character. */
  datatype CharClass = Range(lo: char, hi: char) | Literal(c: char)

  predicate ClassMatches(k: CharClass, c: char)
  {
    match k
    case Range(lo, hi) => lo <= c <= hi
    case Literal(l) => c == l
  }

  /** `\d` without the UNICODE flag: the ASCII digits. */
  const Digit: CharClass := Range('0', '9')

  /** `^[2-9]\d{2}-\d{3}-\d{4}` with the repetitions written out. */
  const PhonePattern: seq<CharClass> :=
    [Range('2', '9'), Digit, Digit, Literal('-'),
     Digit, Digit, Digit, Literal('-'),
     Digit, Digit, Digit, Digit]

  /** `re.match` of a repetition-free pattern: it must match at the start of
      `s`, and whatever follows the matched part is not looked at. */
  function MatchAtStart(pattern: seq<CharClass>, s: string): bool
  {
    if pattern == [] then true
    else s != [] && ClassMatches(pattern[0], s[0]) && MatchAtStart(pattern[1..], s[1..])
  }

  predicate PhoneMatches(phone: string)
  {
    MatchAtStart(PhonePattern, phone)
  }

  predicate IsDigit(c: char)
  {
    '0' <= c <= '9'
  }

  /** Reference definition of an accepted phone string, position by
      position: a digit 2-9, two digits, `-`, three digits, `-`, four digits,
      and then anything at all. */
  predicate PhoneShape(p: string)
  {
    && |p| >= 12
    && '2' <= p[0] <= '9' && IsDigit(p[1]) && IsDigit(p[2])
    && p[3] == '-'
    && IsDigit(p[4]) && IsDigit(p[5]) && IsDigit(p[6])
    && p[7] == '-'
    && IsDigit(p[8]) && IsDigit(p[9]) && IsDigit(p[10]) && IsDigit(p[11])
  }

  /** A start-anchored match reads exactly the first |pattern| characters. */
  lemma {:induction false} MatchAtStartIff(pattern: seq<CharClass>, s: string)
    ensures MatchAtStart(pattern, s) <==>
      |s| >= |pattern| && forall i :: 0 <= i < |pattern| ==> ClassMatches(pattern[i], s[i])
  {
    if pattern != [] && s != [] {
      MatchAtStartIff(pattern[1..], s[1..]);
      if |s| >= |pattern| && forall i :: 0 <= i < |pattern| ==> ClassMatches(pattern[i], s[i]) {
        assert forall i :: 0 <= i < |pattern[1..]| ==> pattern[1..][i] == pattern[i + 1] && s[1..][i] == s[i + 1];
      }
      if MatchAtStart(pattern, s) {
        forall i | 0 <= i < |pattern| ensures ClassMatches(pattern[i], s[i]) {
          if i > 0 {
            assert pattern[1..][i - 1] == pattern[i] && s[1..][i - 1] == s[i];
          }
        }
      }
    }
  }

  /** The phone rule, stated as the character-class check on the first
      twelve characters. */
  lemma PhoneMatchesIff(phone: string)
    ensures PhoneMatches(phone) <==> PhoneShape(phone)
  {
    MatchAtStartIff(PhonePattern, phone);
    if PhoneShape(phone) {
      forall i | 0 <= i < |PhonePattern| ensures ClassMatches(PhonePattern[i], phone[i]) {
      }
    }
  }

  /** Characters after the twelfth never make an accepted phone rejected. */
  lemma PhoneIgnoresSuffix(phone: string, rest: string)
    requires PhoneMatches(phone)
    ensures PhoneMatches(phone + rest)
  {
    PhoneMatchesIff(phone);
    PhoneMatchesIff(phone + rest);
    assert (phone + rest)[..12] == phone[..12];
  }

  /** Strings shorter than the pattern are rejected. */
  lemma ShortPhoneRejected(phone: string)
    requires |phone| < 12
    ensures !PhoneMatches(phone)
  {
    PhoneMatchesIff(phone);
  }

  /** The trailing-digit case: "234-567-89101" is accepted. */
  lemma TrailingDigitAccepted()
    ensures PhoneMatches("234-567-89101")
  {
    PhoneMatchesIff("234-567-89101");
  }

  // ---------------------------------------------------------------------
  // validate_fields
  // ---------------------------------------------------------------------

  /** Some stored username contains the candidate. */
  predicate IsDuplicate(usernames: seq<string>, candidate: string)
  {
    exists u :: u in usernames && Contains(candidate, u)
  }

  /** The decision of validate_fields over the stored usernames (in the
      order `SELECT username FROM Main` returns them), the candidate username
      and the candidate phone: the duplicate rule first, then the phone
      rule, and Accepted only if both pass. */
  function Validate(usernames: seq<string>, candidate: string, phone: string): (v: Verdict)
    ensures v == DuplicateUsername <==> exists u :: u in usernames && IsSubstring(candidate, u)
    ensures v == InvalidPhone <==>
      (forall u :: u in usernames ==> !IsSubstring(candidate, u)) && !PhoneShape(phone)
    ensures v == Accepted <==>
      (forall u :: u in usernames ==> !IsSubstring(candidate, u)) && PhoneShape(phone)
  {
    PhoneMatchesIff(phone);
    if IsDuplicate(usernames, candidate) then DuplicateUsername
    else if !PhoneMatches(phone) then InvalidPhone
    else Accepted
  }

  /** With at least one stored username, the empty candidate is always a
      duplicate, whatever the phone. */
  lemma EmptyUsernameRejected(usernames: seq<string>, phone: string)
    requires |usernames| > 0
    ensures Validate(usernames, [], phone) == DuplicateUsername
  {
    EmptyIsSubstring(usernames[0]);
  }

  /** A duplicate is reported whatever the phone: the phone rule is never
      reached once a stored username contains the candidate. */
  lemma DuplicateDecidedFirst(usernames: seq<string>, candidate: string, phone1: string, phone2: string)
    requires Validate(usernames, candidate, phone1) == DuplicateUsername
    ensures Validate(usernames, candidate, phone2) == DuplicateUsername
  {
  }

  /** With stored username "bob", the candidate "ob" is a duplicate and the
      longer "bobby" is not. */
  lemma SubstringNotEquality(phone: string)
    requires PhoneShape(phone)
    ensures Validate(["bob"], "ob", phone) == DuplicateUsername
    ensures Validate(["bob"], "bobby", phone) == Accepted
  {
    assert OccursAt("ob", "bob", 1);
    assert "bob" in ["bob"] && IsSubstring("ob", "bob");
    LongerIsNotSubstring("bobby", "bob");
  }
}
