/** The username validator attached to the User model's `username` column.
    It rejects the reserved name "me", then requires a search for
    `^[a-zA-Z][a-zA-Z0-9-_\.]{1,20}$` to succeed. In that character class the
    `-` that follows the range `0-9` is a literal, so the class is: ASCII
    letters, ASCII digits, `-`, `_` and `.`. Python's `$` (without MULTILINE)
    matches at the end of the string and also just before a final `\n`. */
module Validators {

  predicate IsAsciiLetter(c: char) {
    'a' <= c <= 'z' || 'A' <= c <= 'Z'
  }

  predicate IsAsciiDigit(c: char) {
    '0' <= c <= '9'
  }

  /** The class `[a-zA-Z0-9-_\.]`. */
  predicate InNameClass(c: char) {
    IsAsciiLetter(c) || IsAsciiDigit(c) || c == '-' || c == '_' || c == '.'
  }

  /** Every character of `u` is in the class. */
  predicate AllInNameClass(u: string) {
    forall i :: 0 <= i < |u| ==> InNameClass(u[i])
  }

  /** Reference reading of the pattern: a letter, then 1 to 20 class characters. */
  predicate IsNameBody(b: string) {
    2 <= |b| <= 21 && IsAsciiLetter(b[0]) && AllInNameClass(b[1..])
  }

  /** Reference reading of the search: the whole string is a name body, or a name
      body followed by one newline (the `$` quirk). */
  predicate PatternHolds(s: string) {
    IsNameBody(s) || (|s| > 0 && s[|s| - 1] == '\n' && IsNameBody(s[..|s| - 1]))
  }

  /** The regex engine's run of `[a-zA-Z0-9-_\.]{1,20}$` over `s`, when `taken`
      class characters have already been consumed. The class never holds `\n`,
      so the run is deterministic: `$` can only succeed at the end of the string
      or in front of a last `\n`. */
  function MatchTail(s: string, taken: nat): bool
    requires taken <= 20
    decreases |s|
  {
    if s == [] || s == "\n" then 1 <= taken
    else taken < 20 && InNameClass(s[0]) && MatchTail(s[1..], taken + 1)
  }

  /** `re.search` of the anchored pattern: `^` only matches at position 0. */
  function SearchName(s: string): bool {
    |s| > 0 && IsAsciiLetter(s[0]) && MatchTail(s[1..], 0)
  }

  /** What the engine's run of the repeated class accepts, stated without the run. */
  lemma {:induction false} MatchTailMeaning(t: string, k: nat)
    requires k <= 20
    ensures MatchTail(t, k) <==>
      (1 <= k + |t| <= 20 && AllInNameClass(t)) ||
      (|t| > 0 && t[|t| - 1] == '\n' && 1 <= k + |t| - 1 <= 20 && AllInNameClass(t[..|t| - 1]))
  {
    if t == [] {
    } else if t == "\n" {
      assert !InNameClass(t[0]);
      assert t[..0] == [];
    } else {
      var rest := t[1..];
      if k < 20 {
        MatchTailMeaning(rest, k + 1);
      }
      assert AllInNameClass(t) <==> InNameClass(t[0]) && AllInNameClass(rest) by {
        if InNameClass(t[0]) && AllInNameClass(rest) {
          forall i | 0 <= i < |t| ensures InNameClass(t[i]) {
            if i > 0 { assert t[i] == rest[i - 1]; }
          }
        }
        if AllInNameClass(t) {
          forall i | 0 <= i < |rest| ensures InNameClass(rest[i]) {
            assert rest[i] == t[i + 1];
          }
        }
      }
      if t[|t| - 1] == '\n' {
        var body := t[..|t| - 1];
        assert |body| > 0;
        assert body[0] == t[0];
        assert rest[..|rest| - 1] == body[1..];
        assert rest[|rest| - 1] == '\n';
        assert AllInNameClass(body) <==> InNameClass(body[0]) && AllInNameClass(body[1..]) by {
          if InNameClass(body[0]) && AllInNameClass(body[1..]) {
            forall i | 0 <= i < |body| ensures InNameClass(body[i]) {
              if i > 0 { assert body[i] == body[1..][i - 1]; }
            }
          }
        }
        assert !AllInNameClass(t) by {
          assert !InNameClass(t[|t| - 1]);
        }
      }
    }
  }

  /** The engine's run agrees with the reference reading of the pattern. */
  lemma SearchNameIsPattern(s: string)
    ensures SearchName(s) <==> PatternHolds(s)
  {
    if |s| > 0 {
      MatchTailMeaning(s[1..], 0);
      if |s| >= 2 && s[|s| - 1] == '\n' {
        var body := s[..|s| - 1];
        assert body[0] == s[0];
        assert s[1..][..|s[1..]| - 1] == body[1..];
      }
    }
  }

  datatype UsernameError = ReservedMe | BadCharacters

  datatype Verdict<E> = Accepted | Rejected(reason: E)

  /** `validate_username`: the reserved-name check first, then the pattern. */
  function ValidateUsername(value: string): (r: Verdict<UsernameError>)
    ensures r.Accepted? <==> value != "me" && PatternHolds(value)
    ensures value == "me" ==> r == Rejected(ReservedMe)
  {
    SearchNameIsPattern(value);
    if value == "me" then Rejected(ReservedMe)
    else if !SearchName(value) then Rejected(BadCharacters)
    else Accepted
  }

  /** "me" matches the pattern: the explicit first check is what excludes it. */
  lemma MeMatchesPattern()
    ensures SearchName("me")
    ensures ValidateUsername("me") == Rejected(ReservedMe)
  {
    assert "me"[1..] == "e";
    assert "e"[1..] == [];
  }

  /** The shape of every accepted username: an ASCII letter first, every later
      character in the class except possibly one final newline, and 2 to 21
      characters before that newline. */
  lemma AcceptedShape(s: string)
    requires ValidateUsername(s).Accepted?
    ensures IsAsciiLetter(s[0])
    ensures s[|s| - 1] != '\n' ==> 2 <= |s| <= 21 && AllInNameClass(s[1..])
    ensures s[|s| - 1] == '\n' ==> 3 <= |s| <= 22 && AllInNameClass(s[1..|s| - 1])
    ensures forall i :: 1 <= i < |s| - 1 ==> InNameClass(s[i])
  {
    if IsNameBody(s) {
      assert forall i :: 1 <= i < |s| ==> s[i] == s[1..][i - 1];
      assert InNameClass(s[|s| - 1]) by { assert s[|s| - 1] == s[1..][|s| - 2]; }
    } else {
      var b := s[..|s| - 1];
      assert b[0] == s[0];
      assert b[1..] == s[1..|s| - 1];
      assert forall i :: 1 <= i < |s| - 1 ==> s[i] == b[1..][i - 1];
    }
  }

  /** Python's `$` lets one trailing newline through: "ab\n" is accepted. */
  lemma TrailingNewlineAccepted()
    ensures ValidateUsername("ab\n").Accepted?
  {
    var s := "ab\n";
    assert s[..|s| - 1] == "ab";
    assert "ab"[1..] == "b";
    assert IsNameBody("ab");
  }
}
