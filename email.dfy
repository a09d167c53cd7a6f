/** The address check of the contact form: `/^[^\s@]+@[^\s@]+\.[^\s@]+$/.test(s)`. */
module Email {
  import opened Dom

  /** JavaScript's `\s`: the ECMAScript WhiteSpace and LineTerminator code points. */
  predicate IsWhitespace(c: char) {
    c == '\t' || c == '\n' || c == '\U{000B}' || c == '\U{000C}' || c == '\r' || c == ' ' ||
    c == '\U{00A0}' || c == '\U{1680}' || ('\U{2000}' <= c <= '\U{200A}') ||
    c == '\U{2028}' || c == '\U{2029}' || c == '\U{202F}' || c == '\U{205F}' ||
    c == '\U{3000}' || c == '\U{FEFF}'
  }

  /** A character of the class `[^\s@]`. */
  predicate IsAddressChar(c: char) {
    !IsWhitespace(c) && c != '@'
  }

  predicate AllAddressChars(s: string) {
    forall k :: 0 <= k < |s| ==> IsAddressChar(s[k])
  }

  /** `[^\s@]+`: a non-empty run of address characters. */
  predicate IsRun(w: string) {
    |w| > 0 && AllAddressChars(w)
  }

  /** The language of the pattern, read off its syntax: three runs joined by `@` and `.`. */
  ghost predicate MatchesPattern(s: string) {
    exists l, d1, d2 :: IsRun(l) && IsRun(d1) && IsRun(d2) && s == l + "@" + d1 + "." + d2
  }

  /** Position of the first `c` in `s`, if there is one. */
  function IndexOf(s: string, c: char): (r: Option<nat>)
    ensures r.None? ==> forall k :: 0 <= k < |s| ==> s[k] != c
    ensures r.Some? ==> r.value < |s| && s[r.value] == c
    ensures r.Some? ==> forall k :: 0 <= k < r.value ==> s[k] != c
  {
    if |s| == 0 then None
    else if s[0] == c then Some(0)
    else match IndexOf(s[1..], c)
      case None => None
      case Some(i) => Some(i + 1)
  }

  /** Some `.` of `d` has at least one character on each side. */
  predicate HasInnerDot(d: string) {
    exists k :: 0 < k < |d| - 1 && d[k] == '.'
  }

  /** What `emailRegex.test(s)` returns (js/main.js:226-227). Since neither
      the local part nor the domain may hold `@`, the `@` the pattern matches
      is the first one; the domain is then split by any inner `.`. */
  predicate TestEmail(s: string) {
    match IndexOf(s, '@')
    case None => false
    case Some(at) =>
      IsRun(s[..at]) && AllAddressChars(s[at + 1..]) && HasInnerDot(s[at + 1..])
  }

  /** An address the pattern accepts has exactly one `@`, with a non-empty
      local part before it and a domain holding an inner `.` after it. */
  predicate IsLocalAtDomain(s: string, at: nat) {
    at < |s| && s[at] == '@' &&
    IsRun(s[..at]) && AllAddressChars(s[at + 1..]) && HasInnerDot(s[at + 1..])
  }

  lemma SplitAtRun(s: string, l: string, d1: string, d2: string)
    requires IsRun(l) && IsRun(d1) && IsRun(d2) && s == l + "@" + d1 + "." + d2
    ensures IndexOf(s, '@') == Some(|l|)
    ensures s[..|l|] == l && s[|l| + 1..] == d1 + "." + d2
  {
    assert s[|l|] == '@';
    assert forall k :: 0 <= k < |l| ==> s[k] == l[k];
    assert s[..|l|] == l;
    assert s[|l| + 1..] == d1 + "." + d2;
  }

  /** The executable test and the pattern's language agree on every string. */
  lemma {:induction false} TestEmailIsPattern(s: string)
    ensures TestEmail(s) <==> MatchesPattern(s)
  {
    if TestEmail(s) {
      var at := IndexOf(s, '@').value;
      var d := s[at + 1..];
      var k :| 0 < k < |d| - 1 && d[k] == '.';
      var l, d1, d2 := s[..at], d[..k], d[k + 1..];
      assert IsRun(d1) by { assert forall j :: 0 <= j < |d1| ==> d1[j] == d[j]; }
      assert IsRun(d2) by { assert forall j :: 0 <= j < |d2| ==> d2[j] == d[k + 1 + j]; }
      assert d == d1 + "." + d2;
      assert s == l + "@" + d;
      assert s == l + "@" + d1 + "." + d2;
    }
    if MatchesPattern(s) {
      var l, d1, d2 :| IsRun(l) && IsRun(d1) && IsRun(d2) && s == l + "@" + d1 + "." + d2;
      SplitAtRun(s, l, d1, d2);
      var d := d1 + "." + d2;
      assert d[|d1|] == '.';
      assert AllAddressChars(d) by {
        forall j | 0 <= j < |d| ensures IsAddressChar(d[j]) {
          if j < |d1| { assert d[j] == d1[j]; }
          else if j > |d1| { assert d[j] == d2[j - |d1| - 1]; }
        }
      }
    }
  }

  /** The test accepts exactly the strings that split once at `@` as the
      pattern's local part and domain; so an accepted address holds one `@`. */
  lemma {:induction false} TestEmailSplitsOnce(s: string)
    ensures TestEmail(s) <==> exists at: nat :: IsLocalAtDomain(s, at)
    ensures TestEmail(s) ==>
      exists at: nat :: at < |s| && s[at] == '@' && forall k :: 0 <= k < |s| && s[k] == '@' ==> k == at
  {
    if TestEmail(s) {
      var at := IndexOf(s, '@').value;
      assert IsLocalAtDomain(s, at);
      forall k | at < k < |s| ensures s[k] != '@' {
        assert s[k] == s[at + 1..][k - at - 1];
      }
    }
    if exists at: nat :: IsLocalAtDomain(s, at) {
      var at: nat :| IsLocalAtDomain(s, at);
      match IndexOf(s, '@')
      case None =>
      case Some(first) =>
        forall k | 0 <= k < at ensures s[k] != '@' {
          assert s[k] == s[..at][k];
        }
        assert first == at;
    }
  }

  /** The examples the form's behaviour is described with: a string without
      `@` fails, addresses with one or several dots in the domain pass. */
  lemma RejectsBadEmail()
    ensures !MatchesPattern("bad-email")
  {
    TestEmailIsPattern("bad-email");
    assert forall k :: 0 <= k < |"bad-email"| ==> "bad-email"[k] != '@';
  }

  lemma AcceptsPlainAddress()
    ensures MatchesPattern("ama@example.com")
  {
    var l, d1, d2 := "ama", "example", "com";
    assert IsRun(l) && IsRun(d1) && IsRun(d2);
    assert "ama@example.com" == l + "@" + d1 + "." + d2;
  }

  lemma AcceptsDottedDomain()
    ensures MatchesPattern("a@b.c.d")
  {
    var l, d1, d2 := "a", "b.c", "d";
    assert IsRun(l) && IsRun(d1) && IsRun(d2);
    assert "a@b.c.d" == l + "@" + d1 + "." + d2;
  }
}
