/** The serializers' validation hooks, as pure functions of the submitted data
    and of a read-only snapshot of the tables: the role-edit policy, the signup
    form, the token form, the profile form, the year check, the duplicate-review
    check and the rating shown for a title. */
module Serializers {
  import opened Common
  import opened Models
  import opened Validators

  // ---------------------------------------------------------------------------
  // UserSerializer.validate_role

  /** `validate_role`: a non-admin instance keeps its stored role whatever role
      was requested; an admin instance, or no instance at all (the attribute
      lookup fails and the handler lets the value through), passes the
      requested role on. */
  function ValidateRole(instance: Option<User>, role: string): (r: string)
    ensures instance.Some? && !instance.value.IsAdmin() ==> r == instance.value.role
    ensures instance.None? || instance.value.IsAdmin() ==> r == role
  {
    match instance
    case None => role
    case Some(u) => if u.role != ADMIN then u.role else role
  }

  /** Nobody who is not already an admin can make themself one, and the
      outcome is always either the stored role or the requested one. */
  lemma NoSelfPromotion(u: User, requested: string)
    ensures !u.IsAdmin() ==> ValidateRole(Some(u), requested) != ADMIN
    ensures ValidateRole(Some(u), requested) == u.role || ValidateRole(Some(u), requested) == requested
  {
  }

  // ---------------------------------------------------------------------------
  // Field checks shared by the forms

  /** Why a form field was refused. */
  datatype FieldError = Required | Blank | TooLong | BadFormat | Reserved | EmailTaken | NotUnique | NotAChoice

  /** The outcome of one field: its validated value, or the first error found. */
  datatype FieldCheck = Pass(value: string) | Fail(error: FieldError)

  const SIGNUP_USERNAME_MAX := 150
  const EMAIL_MAX := 254

  /** Every character field of a serializer refuses a value holding the NUL
      character. */
  predicate NoNulCharacter(v: string) {
    '\0' !in v
  }

  // ---------------------------------------------------------------------------
  // SignUpSerializer

  /** A character of the class `[\w.@+-]`; `isWordChar` is the regex engine's
      (Unicode) `\w`. */
  predicate InSignupClass(c: char, isWordChar: char -> bool) {
    isWordChar(c) || c == '.' || c == '@' || c == '+' || c == '-'
  }

  /** `^[\w.@+-]+\Z`: one or more class characters up to the very end; `\Z`,
      unlike `$`, lets no trailing newline through. */
  predicate SignupPattern(s: string, isWordChar: char -> bool) {
    |s| > 0 && forall i :: 0 <= i < |s| ==> InSignupClass(s[i], isWordChar)
  }

  /** `SignUpSerializer.validate_username`: only "me" is refused. */
  function SignupValidateUsername(username: string): (r: FieldCheck)
    ensures r.Pass? <==> username != "me"
    ensures r.Pass? ==> r.value == username
    ensures r.Fail? ==> r.error == Reserved
  {
    if username == "me" then Fail(Reserved) else Pass(username)
  }

  /** The `username` field of the signup form: required, not blank, then the
      length limit and the pattern, then `validate_username`. */
  function CheckSignupUsername(raw: Option<string>, isWordChar: char -> bool): (r: FieldCheck)
    ensures r.Pass? <==> raw.Some? && raw.value != "me" && |raw.value| <= SIGNUP_USERNAME_MAX && SignupPattern(raw.value, isWordChar)
                         && NoNulCharacter(raw.value)
    ensures r.Pass? ==> r.value == raw.value
  {
    match raw
    case None => Fail(Required)
    case Some(v) =>
      if v == "" then Fail(Blank)
      else if |v| > SIGNUP_USERNAME_MAX then Fail(TooLong)
      else if !SignupPattern(v, isWordChar) || !NoNulCharacter(v) then Fail(BadFormat)
      else SignupValidateUsername(v)
  }

  /** "me" passes the signup pattern, so it is `validate_username` that refuses it. */
  lemma SignupRefusesMe(isWordChar: char -> bool)
    requires isWordChar('m') && isWordChar('e')
    ensures SignupPattern("me", isWordChar)
    ensures CheckSignupUsername(Some("me"), isWordChar) == Fail(Reserved)
  {
    assert forall i :: 0 <= i < |"me"| ==> "me"[i] == 'm' || "me"[i] == 'e';
  }

  /** `SignUpSerializer.validate_email`: an email already on file passes only
      when it comes with the submitted username of its row. */
  function SignupValidateEmail(email: string, initialUsername: Option<string>, users: seq<User>): (r: FieldCheck)
    ensures r.Pass? ==> r.value == email
    ensures r.Fail? ==> r.error == EmailTaken
    ensures r.Fail? ==> exists i :: 0 <= i < |users| && users[i].email == email && initialUsername != Some(users[i].username)
    ensures (forall i :: 0 <= i < |users| ==> users[i].email != email) ==> r.Pass?
  {
    match FirstIndex(users, UserWithEmail(email))
    case None => Pass(email)
    case Some(i) => if initialUsername != Some(users[i].username) then Fail(EmailTaken) else Pass(email)
  }

  /** With unique emails, the email check refuses exactly the emails held by a
      user whose username differs from the submitted one. */
  lemma SignupEmailRefusedIff(email: string, initialUsername: Option<string>, users: seq<User>)
    requires UsersValid(users)
    ensures SignupValidateEmail(email, initialUsername, users).Fail? <==>
      exists i :: 0 <= i < |users| && users[i].email == email && initialUsername != Some(users[i].username)
  {
    if i :| 0 <= i < |users| && users[i].email == email && initialUsername != Some(users[i].username) {
      FirstIndexUnique(users, EmailOf, email, UserWithEmail(email), i);
    }
  }

  /** The `email` field of the signup form: required, not blank, the length
      limit and the format, then `validate_email`. */
  function CheckSignupEmail(raw: Option<string>, initialUsername: Option<string>, users: seq<User>,
                            isEmail: string -> bool): (r: FieldCheck)
    ensures r.Pass? <==> raw.Some? && raw.value != "" && |raw.value| <= EMAIL_MAX && isEmail(raw.value) && NoNulCharacter(raw.value)
                         && SignupValidateEmail(raw.value, initialUsername, users).Pass?
    ensures r.Pass? ==> r.value == raw.value
  {
    match raw
    case None => Fail(Required)
    case Some(v) =>
      if v == "" then Fail(Blank)
      else if |v| > EMAIL_MAX then Fail(TooLong)
      else if !isEmail(v) || !NoNulCharacter(v) then Fail(BadFormat)
      else SignupValidateEmail(v, initialUsername, users)
  }

  /** The submitted signup body: each key may be absent. */
  datatype SignupData = SignupData(username: Option<string>, email: Option<string>)

  /** The signup form after `is_valid`: both validated values, or the error of
      each field (the fields are checked independently). */
  datatype SignupForm =
    | Clean(username: string, email: string)
    | Errors(usernameError: Option<FieldError>, emailError: Option<FieldError>)

  function ErrorOf(c: FieldCheck): Option<FieldError> {
    if c.Fail? then Some(c.error) else None
  }

  /** `SignUpSerializer(data=...).is_valid()`. */
  function ValidateSignup(data: SignupData, users: seq<User>, isWordChar: char -> bool,
                          isEmail: string -> bool): (r: SignupForm)
    ensures r.Clean? <==> CheckSignupUsername(data.username, isWordChar).Pass?
                          && CheckSignupEmail(data.email, data.username, users, isEmail).Pass?
    ensures r.Clean? ==> data.username == Some(r.username) && data.email == Some(r.email)
    ensures r.Errors? ==> r.usernameError.Some? || r.emailError.Some?
  {
    var u := CheckSignupUsername(data.username, isWordChar);
    var e := CheckSignupEmail(data.email, data.username, users, isEmail);
    if u.Pass? && e.Pass? then Clean(u.value, e.value) else Errors(ErrorOf(u), ErrorOf(e))
  }

  /** A validated signup never carries the username "me", and an email on file
      only passes together with the username of its row. */
  lemma CleanSignupMeaning(data: SignupData, users: seq<User>, isWordChar: char -> bool, isEmail: string -> bool)
    requires UsersValid(users)
    requires ValidateSignup(data, users, isWordChar, isEmail).Clean?
    ensures ValidateSignup(data, users, isWordChar, isEmail).username != "me"
    ensures forall i :: 0 <= i < |users| && users[i].email == ValidateSignup(data, users, isWordChar, isEmail).email ==>
      users[i].username == ValidateSignup(data, users, isWordChar, isEmail).username
  {
    var f := ValidateSignup(data, users, isWordChar, isEmail);
    SignupEmailRefusedIff(f.email, data.username, users);
  }

  // ---------------------------------------------------------------------------
  // GetTokenSerializer.validate

  /** The outcome of `validate`: the attributes pass, the instance refuses the
      code, or there is no instance to ask. */
  datatype TokenCheck = AttrsValid | CodeRejected | NoInstance

  /** `GetTokenSerializer.validate`: asks the bound instance to check the code. */
  function ValidateTokenAttrs(instance: Option<User>, code: string): (r: TokenCheck)
    ensures r == NoInstance <==> instance.None?
    ensures instance.Some? ==> (r == CodeRejected <==> instance.value.confirmationCode != Some(code))
  {
    match instance
    case None => NoInstance
    case Some(u) => if ConfirmationCodeRejects(u, code) then CodeRejected else AttrsValid
  }

  // ---------------------------------------------------------------------------
  // TitleReadOnlySerializer.get_rating

  /** The scores of the reviews of title `t`, in table order. */
  function ScoresOf(rs: seq<Review>, t: nat): (r: seq<int>)
    ensures |r| <= |rs|
  {
    if |rs| == 0 then []
    else (if rs[0].title == t then [rs[0].score] else []) + ScoresOf(rs[1..], t)
  }

  function Sum(s: seq<int>): int {
    if |s| == 0 then 0 else s[0] + Sum(s[1..])
  }

  /** A title has scores exactly when one of its reviews is in the table. */
  lemma {:induction false} ScoresOfEmptyIff(rs: seq<Review>, t: nat)
    ensures |ScoresOf(rs, t)| == 0 <==> forall i :: 0 <= i < |rs| ==> rs[i].title != t
  {
    if |rs| > 0 {
      ScoresOfEmptyIff(rs[1..], t);
      assert forall i :: 1 <= i < |rs| ==> rs[i] == rs[1..][i - 1];
    }
  }

  /** A title's scores are scores of reviews in the table, so they keep the column's bounds. */
  lemma {:induction false} ScoresOfInRange(rs: seq<Review>, t: nat)
    requires forall i :: 0 <= i < |rs| ==> ScoreInRange(rs[i].score)
    ensures forall j :: 0 <= j < |ScoresOf(rs, t)| ==> ScoreInRange(ScoresOf(rs, t)[j])
  {
    if |rs| > 0 {
      assert forall i :: 0 <= i < |rs[1..]| ==> rs[1..][i] == rs[i + 1];
      ScoresOfInRange(rs[1..], t);
      var head := if rs[0].title == t then [rs[0].score] else [];
      assert ScoresOf(rs, t) == head + ScoresOf(rs[1..], t);
    }
  }

  /** `get_rating`: none when the title has no reviews, otherwise the exact
      mean of their scores. */
  function Rating(rs: seq<Review>, t: nat): (r: Option<real>)
    ensures r.None? <==> forall i :: 0 <= i < |rs| ==> rs[i].title != t
    ensures r.Some? ==> r.value * (|ScoresOf(rs, t)| as real) == Sum(ScoresOf(rs, t)) as real
  {
    ScoresOfEmptyIff(rs, t);
    var s := ScoresOf(rs, t);
    if |s| == 0 then None else Some(Sum(s) as real / |s| as real)
  }

  /** The sum of scores that lie in [lo, hi] lies between `lo` and `hi` times their count. */
  lemma {:induction false} SumBounds(s: seq<int>, lo: int, hi: int)
    requires forall j :: 0 <= j < |s| ==> lo <= s[j] <= hi
    ensures lo * |s| <= Sum(s) <= hi * |s|
  {
    if |s| > 0 {
      SumBounds(s[1..], lo, hi);
      assert lo <= s[0] <= hi;
    }
  }

  /** With every score in [1, 10], a rating lies in [1, 10]. */
  lemma RatingInScoreRange(rs: seq<Review>, t: nat)
    requires forall i :: 0 <= i < |rs| ==> ScoreInRange(rs[i].score)
    ensures Rating(rs, t).Some? ==> MIN_SCORE as real <= Rating(rs, t).value <= MAX_SCORE as real
  {
    var s := ScoresOf(rs, t);
    ScoresOfInRange(rs, t);
    SumBounds(s, MIN_SCORE, MAX_SCORE);
    if |s| > 0 {
      var n := |s| as real;
      assert (MIN_SCORE * |s|) as real == MIN_SCORE as real * n;
      assert (MAX_SCORE * |s|) as real == MAX_SCORE as real * n;
      MeanBounds(Sum(s) as real, n, MIN_SCORE as real, MAX_SCORE as real);
    }
  }

  /** A total between `lo` and `hi` times a positive count gives a mean between `lo` and `hi`. */
  lemma MeanBounds(total: real, n: real, lo: real, hi: real)
    requires n > 0.0 && lo * n <= total <= hi * n
    ensures lo <= total / n <= hi
  {
    var m := total / n;
    assert m * n == total;
  }

  /** A new review adds its score to its own title only. */
  lemma {:induction false} ScoresOfAppend(rs: seq<Review>, x: Review, t: nat)
    ensures ScoresOf(rs + [x], t) == ScoresOf(rs, t) + (if x.title == t then [x.score] else [])
  {
    if |rs| == 0 {
      assert ScoresOf([x], t) == (if x.title == t then [x.score] else []) + ScoresOf([], t);
    } else {
      assert (rs + [x])[1..] == rs[1..] + [x];
      ScoresOfAppend(rs[1..], x, t);
    }
  }

  /** Deleting reviews of other titles leaves a title's scores, and so its
      rating, as they were. */
  lemma {:induction false} ScoresOfIgnoresOtherDeletes(rs: seq<Review>, keep: Review -> bool, t: nat)
    requires forall r: Review :: r.title == t ==> keep(r)
    ensures ScoresOf(Filter(rs, keep), t) == ScoresOf(rs, t)
  {
    if |rs| > 0 {
      ScoresOfIgnoresOtherDeletes(rs[1..], keep, t);
      if keep(rs[0]) {
        var f := Filter(rs, keep);
        assert f == [rs[0]] + Filter(rs[1..], keep);
        assert f[0] == rs[0] && f[1..] == Filter(rs[1..], keep);
      }
    }
  }

  /** Deleting another title (or any review of another title) does not move
      this title's rating. */
  lemma RatingIgnoresOtherTitleDeletes(rs: seq<Review>, other: nat, t: nat)
    requires other != t
    ensures Rating(Filter(rs, ReviewNotOnTitle(other)), t) == Rating(rs, t)
  {
    ScoresOfIgnoresOtherDeletes(rs, ReviewNotOnTitle(other), t);
  }

  /** A new review of another title leaves the rating as it was. */
  lemma RatingIgnoresOtherInsert(rs: seq<Review>, x: Review, t: nat)
    requires x.title != t
    ensures Rating(rs + [x], t) == Rating(rs, t)
  {
    ScoresOfAppend(rs, x, t);
    assert ScoresOf(rs + [x], t) == ScoresOf(rs, t) + [];
    assert ScoresOf(rs, t) + [] == ScoresOf(rs, t);
  }

  /** A new review of this title joins the mean: the rating becomes the old
      total plus its score over the old count plus one. */
  lemma RatingAfterOwnInsert(rs: seq<Review>, x: Review, t: nat)
    requires x.title == t
    ensures Rating(rs + [x], t) == Some((Sum(ScoresOf(rs, t)) + x.score) as real / (|ScoresOf(rs, t)| + 1) as real)
  {
    var before := ScoresOf(rs, t);
    ScoresOfAppend(rs, x, t);
    assert ScoresOf(rs + [x], t) == before + [x.score];
    SumAppend(before, x.score);
  }

  lemma {:induction false} SumAppend(s: seq<int>, y: int)
    ensures Sum(s + [y]) == Sum(s) + y
  {
    if |s| > 0 {
      assert (s + [y])[1..] == s[1..] + [y];
      SumAppend(s[1..], y);
    }
  }

  /** One review scored 8 rates its title 8. */
  lemma RatingOfSingleReview(id: nat, author: nat, t: nat, text: string)
    ensures Rating([Review(id, author, t, text, 8)], t) == Some(8.0)
  {
    var rs := [Review(id, author, t, text, 8)];
    assert rs[1..] == [];
    assert ScoresOf(rs, t) == [8];
    assert [8][1..] == [];
    assert Sum([8]) == 8;
  }

  // ---------------------------------------------------------------------------
  // TitleSerializer.validate_year

  /** `validate_year`: a year after the current one is refused, any other is
      returned unchanged. The current year is a parameter. */
  function ValidateYear(value: int, currentYear: int): (r: Option<int>)
    ensures r.Some? <==> value <= currentYear
    ensures r.Some? ==> r.value == value
  {
    if value > currentYear then None else Some(value)
  }

  /** A year accepted now stays accepted in every later year. */
  lemma YearStaysAccepted(value: int, currentYear: int, laterYear: int)
    requires currentYear <= laterYear
    requires ValidateYear(value, currentYear).Some?
    ensures ValidateYear(value, laterYear) == ValidateYear(value, currentYear)
  {
  }

  // ---------------------------------------------------------------------------
  // ReviewSerializer

  /** The writable fields of a review. */
  datatype ReviewData = ReviewData(text: string, score: int)

  /** The field checks a review body goes through: a non-blank text free of
      NUL characters and a score within the column's validators. */
  function CheckReviewFields(text: Option<string>, score: Option<int>): (r: Option<ReviewData>)
    ensures r.Some? <==> text.Some? && text.value != "" && NoNulCharacter(text.value) && score.Some? && ScoreInRange(score.value)
    ensures r.Some? ==> r.value == ReviewData(text.value, score.value)
  {
    if text.None? || text.value == "" || !NoNulCharacter(text.value) || score.None? || !ScoreInRange(score.value) then None
    else Some(ReviewData(text.value, score.value))
  }

  function ReviewByOn(user: nat, title: nat): Review -> bool {
    (r: Review) => r.author == user && r.title == title
  }

  /** `ReviewSerializer.validate`: data of any other method passes untouched;
      a POST is refused when the requester already reviewed the title. */
  function ValidateReview(isPost: bool, rs: seq<Review>, user: nat, title: nat, data: ReviewData): (r: Option<ReviewData>)
    ensures r.Some? ==> r.value == data
    ensures !isPost ==> r == Some(data)
    ensures r.None? <==> isPost && exists i :: 0 <= i < |rs| && rs[i].author == user && rs[i].title == title
  {
    if !isPost then Some(data)
    else if FirstIndex(rs, ReviewByOn(user, title)).Some? then None
    else Some(data)
  }

  /** A POST that passes the check can be stored without breaking the
      (author, title) unique constraint. */
  lemma AcceptedReviewKeepsUnique(rs: seq<Review>, user: nat, title: nat, data: ReviewData, id: nat)
    requires UniqueBy(rs, AuthorTitleOf)
    requires ValidateReview(true, rs, user, title, data).Some?
    ensures UniqueBy(rs + [Review(id, user, title, data.text, data.score)], AuthorTitleOf)
  {
    AppendKeepsUnique(rs, Review(id, user, title, data.text, data.score), AuthorTitleOf);
  }

  // ---------------------------------------------------------------------------
  // UserSerializer on a partial update of the requester's own row

  /** A PATCH body: each key may be absent. */
  datatype ProfilePatch = ProfilePatch(
    username: Option<string>,
    email: Option<string>,
    firstName: Option<string>,
    lastName: Option<string>,
    bio: Option<string>,
    role: Option<string>)

  datatype ProfileField = UsernameField | EmailField | FirstNameField | LastNameField | BioField | RoleField

  /** The `username` column as a form field of row `k`: not blank, within the
      column length, accepted by the model's validator, and held by no other row. */
  predicate ProfileUsernameOk(users: seq<User>, k: nat, v: string, maxName: nat) {
    && v != ""
    && |v| <= maxName
    && ValidateUsername(v).Accepted?
    && forall i :: 0 <= i < |users| && i != k ==> users[i].username != v
  }

  /** The field's own NUL check needs no separate test on a username: the
      model's validator already refuses every name holding a NUL. */
  lemma ValidatedUsernameHasNoNul(v: string)
    requires ValidateUsername(v).Accepted?
    ensures NoNulCharacter(v)
  {
    AcceptedShape(v);
    forall i | 0 <= i < |v|
      ensures v[i] != '\0'
    {
      if 0 < i && v[|v| - 1] != '\n' {
        assert v[i] == v[1..][i - 1];
      }
    }
  }

  /** The `email` column as a form field of row `k`: not blank, within 254
      characters, a valid address, and held by no other row. */
  predicate ProfileEmailOk(users: seq<User>, k: nat, v: string, isEmail: string -> bool) {
    && v != ""
    && |v| <= EMAIL_MAX
    && isEmail(v)
    && NoNulCharacter(v)
    && forall i :: 0 <= i < |users| && i != k ==> users[i].email != v
  }

  /** The `role` column as a form field: one of the choices, or blank. */
  predicate RoleChoiceOk(v: string) {
    v in ROLE_CHOICES || v == ""
  }

  /** The fields of a PATCH on row `k` that fail validation; only the keys
      present are checked. */
  function ProfileErrors(users: seq<User>, k: nat, p: ProfilePatch, isEmail: string -> bool, maxName: nat): (r: set<ProfileField>)
    ensures UsernameField in r <==> p.username.Some? && !ProfileUsernameOk(users, k, p.username.value, maxName)
    ensures EmailField in r <==> p.email.Some? && !ProfileEmailOk(users, k, p.email.value, isEmail)
    ensures FirstNameField in r <==> p.firstName.Some? && (|p.firstName.value| > maxName || !NoNulCharacter(p.firstName.value))
    ensures LastNameField in r <==> p.lastName.Some? && (|p.lastName.value| > maxName || !NoNulCharacter(p.lastName.value))
    ensures BioField in r <==> p.bio.Some? && !NoNulCharacter(p.bio.value)
    ensures RoleField in r <==> p.role.Some? && !RoleChoiceOk(p.role.value)
  {
    (if p.username.Some? && !ProfileUsernameOk(users, k, p.username.value, maxName) then {UsernameField} else {})
    + (if p.email.Some? && !ProfileEmailOk(users, k, p.email.value, isEmail) then {EmailField} else {})
    + (if p.firstName.Some? && (|p.firstName.value| > maxName || !NoNulCharacter(p.firstName.value)) then {FirstNameField} else {})
    + (if p.lastName.Some? && (|p.lastName.value| > maxName || !NoNulCharacter(p.lastName.value)) then {LastNameField} else {})
    + (if p.bio.Some? && !NoNulCharacter(p.bio.value) then {BioField} else {})
    + (if p.role.Some? && !RoleChoiceOk(p.role.value) then {RoleField} else {})
  }

  function Or<T>(o: Option<T>, d: T): T {
    if o.Some? then o.value else d
  }

  /** The row after a valid PATCH: the keys present overwrite their columns,
      with the role passed through `validate_role` against the stored row. */
  function ApplyProfilePatch(u: User, p: ProfilePatch): (r: User)
    ensures r.id == u.id && r.confirmationCode == u.confirmationCode
    ensures r.username == (if p.username.Some? then p.username.value else u.username)
    ensures r.email == (if p.email.Some? then p.email.value else u.email)
    ensures r.firstName == (if p.firstName.Some? then p.firstName.value else u.firstName)
    ensures r.lastName == (if p.lastName.Some? then p.lastName.value else u.lastName)
    ensures r.bio == (if p.bio.Some? then p.bio.value else u.bio)
    ensures r.role == (if p.role.Some? then ValidateRole(Some(u), p.role.value) else u.role)
  {
    u.(username := Or(p.username, u.username),
       email := Or(p.email, u.email),
       firstName := Or(p.firstName, u.firstName),
       lastName := Or(p.lastName, u.lastName),
       bio := Or(p.bio, u.bio),
       role := if p.role.Some? then ValidateRole(Some(u), p.role.value) else u.role)
  }

  /** A non-admin's PATCH never changes their role, whatever it asks for. */
  lemma PatchKeepsNonAdminRole(u: User, p: ProfilePatch)
    requires !u.IsAdmin()
    ensures ApplyProfilePatch(u, p).role == u.role
    ensures ApplyProfilePatch(u, p) != u ==>
      p.username.Some? || p.email.Some? || p.firstName.Some? || p.lastName.Some? || p.bio.Some?
  {
  }

  /** A PATCH that passes validation leaves usernames and emails unique: the
      row's new username and email are held by no other row. */
  lemma ValidPatchKeepsUnique(users: seq<User>, k: nat, p: ProfilePatch, isEmail: string -> bool, maxName: nat)
    requires UsersValid(users) && k < |users|
    requires ProfileErrors(users, k, p, isEmail, maxName) == {}
    ensures forall i :: 0 <= i < |users| && i != k ==>
      users[i].username != ApplyProfilePatch(users[k], p).username && users[i].email != ApplyProfilePatch(users[k], p).email
  {
    assert UsernameField !in ProfileErrors(users, k, p, isEmail, maxName);
    assert EmailField !in ProfileErrors(users, k, p, isEmail, maxName);
    var r := ApplyProfilePatch(users[k], p);
    forall i | 0 <= i < |users| && i != k
      ensures users[i].username != r.username && users[i].email != r.email
    {
      if i < k {
        assert UsernameOf(users[i]) != UsernameOf(users[k]) && EmailOf(users[i]) != EmailOf(users[k]);
      } else {
        assert UsernameOf(users[k]) != UsernameOf(users[i]) && EmailOf(users[k]) != EmailOf(users[i]);
      }
    }
  }
}
