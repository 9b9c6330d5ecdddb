/** The input checks of the catalog store: the username and e-mail regular
    expressions of `_validate_username` / `_validate_email`, written as
    character classes, and Python's `str.strip()`. */
module Validation {

  predicate IsAsciiLetter(c: char) { 'a' <= c <= 'z' || 'A' <= c <= 'Z' }

  predicate IsAsciiDigit(c: char) { '0' <= c <= '9' }

  /** `[a-zA-Z0-9_]` */
  predicate IsUsernameChar(c: char) { IsAsciiLetter(c) || IsAsciiDigit(c) || c == '_' }

  /** `[a-zA-Z0-9._%+-]`, the local part of an address */
  predicate IsLocalChar(c: char) {
    IsAsciiLetter(c) || IsAsciiDigit(c) || c == '.' || c == '_' || c == '%' || c == '+' || c == '-'
  }

  /** `[a-zA-Z0-9.-]`, the domain before its last dot */
  predicate IsDomainChar(c: char) { IsAsciiLetter(c) || IsAsciiDigit(c) || c == '.' || c == '-' }

  /** `[a-zA-Z0-9_]{3,20}` matching the whole text. */
  predicate UsernameBody(s: string) {
    3 <= |s| <= 20 && forall i :: 0 <= i < |s| ==> IsUsernameChar(s[i])
  }

  /** `re.match(r'^[a-zA-Z0-9_]{3,20}$', s)`. Python's `$` matches at the end
      of the text and also just before a final "\n", so one trailing newline
      gets through. */
  predicate ValidUsername(s: string) {
    UsernameBody(s) || (|s| > 0 && s[|s| - 1] == '\n' && UsernameBody(s[..|s| - 1]))
  }

  /** One way the e-mail pattern can match: `s[..at]` is the local part,
      `s[at]` the `@`, `s[at + 1..dot]` the domain, `s[dot]` the `\.` and
      `s[dot + 1..]` the top-level part of two or more letters. */
  predicate EmailShape(s: string, at: int, dot: int) {
    && 0 < at && at + 1 < dot && dot + 2 < |s|
    && s[at] == '@' && s[dot] == '.'
    && (forall i :: 0 <= i < at ==> IsLocalChar(s[i]))
    && (forall i :: at < i < dot ==> IsDomainChar(s[i]))
    && (forall i :: dot < i < |s| ==> IsAsciiLetter(s[i]))
  }

  /** `[a-zA-Z0-9._%+-]+@[a-zA-Z0-9.-]+\.[a-zA-Z]{2,}` matching the whole
      text, for some way of splitting it. */
  predicate EmailBody(s: string) {
    exists at, dot | 0 < at < dot < |s| :: EmailShape(s, at, dot)
  }

  /** `re.match(r'^...$', s)` for the e-mail pattern, with the same
      final-newline allowance as `ValidUsername`. */
  predicate ValidEmail(s: string) {
    EmailBody(s) || (|s| > 0 && s[|s| - 1] == '\n' && EmailBody(s[..|s| - 1]))
  }

  /** A username never holds an `@`. */
  lemma UsernameHasNoAt(s: string)
    requires ValidUsername(s)
    ensures forall i :: 0 <= i < |s| ==> s[i] != '@'
  {
    if !UsernameBody(s) {
      var t := s[..|s| - 1];
      assert forall i :: 0 <= i < |s| - 1 ==> s[i] == t[i];
    }
  }

  /** An e-mail address always holds an `@`. */
  lemma EmailHasAt(s: string)
    requires ValidEmail(s)
    ensures exists i :: 0 <= i < |s| && s[i] == '@'
  {
    var t := if EmailBody(s) then s else s[..|s| - 1];
    var at, dot :| 0 < at < dot < |t| && EmailShape(t, at, dot);
    assert s[at] == t[at];
  }

  /** No text is both a valid username and a valid e-mail address, so a login
      string can match a username or an e-mail but never both kinds. */
  lemma {:induction false} NoUsernameIsAnEmail(s: string)
    ensures !(ValidUsername(s) && ValidEmail(s))
  {
    if ValidUsername(s) && ValidEmail(s) {
      UsernameHasNoAt(s);
      EmailHasAt(s);
    }
  }

  /** A valid username is a body of 3 to 20 characters of `[a-zA-Z0-9_]`,
      followed by nothing or by one final newline. */
  lemma UsernameShape(s: string)
    requires ValidUsername(s)
    ensures var n := if s[|s| - 1] == '\n' then |s| - 1 else |s|;
            && 3 <= n <= 20
            && (forall i :: 0 <= i < n ==> IsUsernameChar(s[i]))
            && (n == |s| || (n == |s| - 1 && s[n] == '\n'))
  {
    if !UsernameBody(s) {
      var t := s[..|s| - 1];
      assert forall i :: 0 <= i < |s| - 1 ==> s[i] == t[i];
    } else {
      assert IsUsernameChar(s[|s| - 1]);
    }
  }

  /** A valid address is at least six characters ("a@b.cd"), starts with a
      local-part character and ends in two letters of the top-level part,
      which may be followed by the one final newline `$` lets through. */
  lemma EmailShapeBounds(s: string)
    requires ValidEmail(s)
    ensures |s| >= 6 && IsLocalChar(s[0])
    ensures || (IsAsciiLetter(s[|s| - 1]) && IsAsciiLetter(s[|s| - 2]))
            || (s[|s| - 1] == '\n' && IsAsciiLetter(s[|s| - 2]) && IsAsciiLetter(s[|s| - 3]))
  {
    var t := if EmailBody(s) then s else s[..|s| - 1];
    var at, dot :| 0 < at < dot < |t| && EmailShape(t, at, dot);
    assert IsLocalChar(t[0]) && t[0] == s[0];
    assert dot < |t| - 2;
    assert IsAsciiLetter(t[|t| - 1]) && IsAsciiLetter(t[|t| - 2]);
    if t != s {
      assert t[|t| - 1] == s[|s| - 2] && t[|t| - 2] == s[|s| - 3];
    }
  }

  /** The patterns on sample inputs: a name with digits and an underscore and
      a dotted, tagged address pass; a two-character name and a name with a
      space fail. */
  lemma ValidatorSamples()
    ensures ValidUsername("player_1") && !ValidUsername("ab") && !ValidUsername("two words")
    ensures ValidEmail("a.b+c@mail.example.org")
  {
    assert !IsUsernameChar("two words"[3]);
    assert EmailShape("a.b+c@mail.example.org", 5, 18);
  }

  /** The anchor quirk: "abc\n" passes the username check although the
      newline is outside the character class. */
  lemma TrailingNewlineAccepted()
    ensures ValidUsername("abc\n") && !UsernameBody("abc\n")
  {
    assert "abc\n"[..3] == "abc";
  }

  // ---------------------------------------------------------------------------
  // str.strip()

  /** Python's `str.isspace()` for one character: the ASCII controls
      \t \n \v \f \r, the separators \x1c-\x1f, the space, and the Unicode
      space separators and line/paragraph separators. */
  predicate IsSpace(c: char) {
    || c == ' '
    || '\t' <= c <= '\r'
    || '\U{1c}' <= c <= '\U{1f}'
    || c == '\U{85}' || c == '\U{a0}' || c == '\U{1680}'
    || '\U{2000}' <= c <= '\U{200a}'
    || c == '\U{2028}' || c == '\U{2029}' || c == '\U{202f}' || c == '\U{205f}'
    || c == '\U{3000}'
  }

  /** `str.lstrip()`: the suffix left after dropping leading whitespace. */
  function TrimStart(s: string): (r: string)
    ensures |r| <= |s| && r == s[|s| - |r|..]
    ensures forall i :: 0 <= i < |s| - |r| ==> IsSpace(s[i])
    ensures r == [] || !IsSpace(r[0])
  {
    if s != [] && IsSpace(s[0]) then TrimStart(s[1..]) else s
  }

  /** `str.rstrip()`: the prefix left after dropping trailing whitespace. */
  function TrimEnd(s: string): (r: string)
    ensures |r| <= |s| && r == s[..|r|]
    ensures forall i :: |r| <= i < |s| ==> IsSpace(s[i])
    ensures r == [] || !IsSpace(r[|r| - 1])
  {
    if s != [] && IsSpace(s[|s| - 1]) then TrimEnd(s[..|s| - 1]) else s
  }

  /** How many whitespace characters `str.lstrip()` removes. */
  function LeadingSpaces(s: string): nat {
    |s| - |TrimStart(s)|
  }

  /** No whitespace at either end. */
  predicate Stripped(s: string) {
    s == [] || (!IsSpace(s[0]) && !IsSpace(s[|s| - 1]))
  }

  /** `str.rstrip()` keeps the first character of whatever it does not empty. */
  lemma TrimEndKeepsFirst(t: string)
    ensures TrimEnd(t) != [] ==> TrimEnd(t)[0] == t[0]
  {
  }

  /** `str.strip()`: `str.rstrip()` after `str.lstrip()`, which leaves no
      whitespace at either end. */
  function Strip(s: string): (r: string)
    ensures |r| <= |s| && Stripped(r)
  {
    TrimEndKeepsFirst(TrimStart(s));
    TrimEnd(TrimStart(s))
  }

  /** What strip keeps is the contiguous piece of `s` between its leading
      and its trailing whitespace: everything before and after it is
      whitespace. */
  lemma StripIsSlice(s: string)
    ensures LeadingSpaces(s) + |Strip(s)| <= |s|
    ensures Strip(s) == s[LeadingSpaces(s)..LeadingSpaces(s) + |Strip(s)|]
    ensures forall i :: 0 <= i < LeadingSpaces(s) ==> IsSpace(s[i])
    ensures forall i :: LeadingSpaces(s) + |Strip(s)| <= i < |s| ==> IsSpace(s[i])
  {
    var t := TrimStart(s);
    var r := TrimEnd(t);
    assert t == s[LeadingSpaces(s)..];
    assert r == t[..|r|];
  }

  /** Strip leaves nothing exactly when every character is whitespace. */
  lemma StripEmptyIffBlank(s: string)
    ensures Strip(s) == [] <==> forall i :: 0 <= i < |s| ==> IsSpace(s[i])
  {
    var t := TrimStart(s);
    if Strip(s) == [] {
      assert TrimEnd(t) == [];
      assert t == [];
    }
  }

  /** A text has nothing to strip exactly when it has no whitespace at either
      end. */
  lemma StrippedIsFixed(s: string)
    ensures Stripped(s) <==> Strip(s) == s
  {
    if Stripped(s) && s != [] {
      assert TrimStart(s) == s;
      assert TrimEnd(s) == s;
    }
  }

  /** Stripping twice is stripping once: stored chat text is its own strip. */
  lemma StripIdempotent(s: string)
    ensures Strip(Strip(s)) == Strip(s)
  {
    var r := Strip(s);
    if r != [] {
      assert TrimStart(r) == r;
      assert TrimEnd(r) == r;
    }
  }
}
