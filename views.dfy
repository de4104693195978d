/** The request handlers of the core: the token exchange (a chain of ordered
    checks), signup (get-or-create on the user table, then a new confirmation
    code), the review POST and the PATCH of the requester's own profile. The
    mail sender, the token issuer and `uuid3` sit outside the model: the mail
    is returned as a value, a token is named by the user it is issued for, and
    `uuid3` is a parameter. */
module Views {
  import opened Common
  import opened Models
  import opened Validators
  import opened Serializers
  import opened Database

  // ---------------------------------------------------------------------------
  // APIGetToken.post

  /** The answers of the token exchange. */
  datatype TokenResponse =
    | UsernameRequired
    | UserNotFound
    | CodeRequired
    | CodeMismatch
    | AttrsInvalid
    | ServerError
    | Token(user: nat)
  {
    function Status(): int {
      match this
      case UsernameRequired => 400
      case UserNotFound => 404
      case CodeRequired => 400
      case CodeMismatch => 400
      case AttrsInvalid => 400
      case ServerError => 500
      case Token(_) => 200
    }
  }

  /** Python truthiness of a request value: an absent or empty value is false. */
  predicate Falsy(v: Option<string>) {
    v.None? || v.value == ""
  }

  /** The handler's checks in order: username present, user found, code
      present, code equal to the stored one, then the serializer's validation;
      `bindInstance` says whether the serializer is given the user. */
  function ExchangeToken(users: seq<User>, username: Option<string>, code: Option<string>,
                         bindInstance: bool): (r: TokenResponse)
    ensures Falsy(username) ==> r == UsernameRequired
    ensures !Falsy(username) && (forall i :: 0 <= i < |users| ==> users[i].username != username.value) ==> r == UserNotFound
    ensures r.Token? ==> (bindInstance && !Falsy(code) &&
      exists i :: 0 <= i < |users| && Some(users[i].username) == username && users[i].confirmationCode == code && users[i].id == r.user)
    ensures r == ServerError ==> (!bindInstance && !Falsy(code) &&
      exists i :: 0 <= i < |users| && Some(users[i].username) == username && users[i].confirmationCode == code)
    ensures r != AttrsInvalid
  {
    if Falsy(username) then UsernameRequired
    else match FirstIndex(users, UserNamed(username.value))
      case None => UserNotFound
      case Some(i) =>
        if Falsy(code) then CodeRequired
        else if code != users[i].confirmationCode then CodeMismatch
        else match ValidateTokenAttrs(if bindInstance then Some(users[i]) else None, code.value)
          case NoInstance => ServerError
          case CodeRejected => AttrsInvalid
          case AttrsValid => Token(users[i].id)
  }

  /** Once the username names a user, the remaining checks run in order on that
      user's row: a missing code, then a different code, then the serializer. */
  lemma TokenChecksInOrder(users: seq<User>, i: nat, code: Option<string>, bindInstance: bool)
    requires UsersValid(users) && i < |users| && users[i].username != ""
    ensures Falsy(code) ==> ExchangeToken(users, Some(users[i].username), code, bindInstance) == CodeRequired
    ensures !Falsy(code) && code != users[i].confirmationCode ==>
      ExchangeToken(users, Some(users[i].username), code, bindInstance) == CodeMismatch
    ensures !Falsy(code) && code == users[i].confirmationCode ==>
      ExchangeToken(users, Some(users[i].username), code, bindInstance) == (if bindInstance then Token(users[i].id) else ServerError)
  {
    FirstIndexUnique(users, UsernameOf, users[i].username, UserNamed(users[i].username), i);
  }

  /** The handler as written: the serializer gets no instance. A request that
      passes every check of its own ends in an unhandled attribute error. */
  function GetTokenAsWritten(users: seq<User>, username: Option<string>, code: Option<string>): (r: TokenResponse)
    ensures !r.Token?
    ensures r == ServerError ==> (!Falsy(code) &&
      exists i :: 0 <= i < |users| && Some(users[i].username) == username && users[i].confirmationCode == code)
  {
    ExchangeToken(users, username, code, false)
  }

  /** The handler with the user bound to the serializer. */
  function GetToken(users: seq<User>, username: Option<string>, code: Option<string>): (r: TokenResponse)
    ensures r.Token? ==> (!Falsy(code) &&
      exists i :: 0 <= i < |users| && Some(users[i].username) == username && users[i].confirmationCode == code && users[i].id == r.user)
    ensures r != ServerError
  {
    ExchangeToken(users, username, code, true)
  }

  /** As written, the matching code is the one request that fails with a 500,
      and no request ever gets a token. */
  lemma AsWrittenNeverIssuesToken(users: seq<User>, username: Option<string>, code: Option<string>)
    requires UsersValid(users)
    ensures GetTokenAsWritten(users, username, code).Status() != 200
    ensures GetTokenAsWritten(users, username, code) == ServerError <==>
      !Falsy(username) && !Falsy(code) &&
      exists i :: 0 <= i < |users| && Some(users[i].username) == username && users[i].confirmationCode == code
  {
    if i :| 0 <= i < |users| && Some(users[i].username) == username && users[i].confirmationCode == code {
      if !Falsy(username) {
        TokenChecksInOrder(users, i, code, false);
      }
    }
  }

  /** With the user bound, a token is issued exactly for a non-empty code equal
      to the one stored for the named user. */
  lemma CorrectedIssuesTokenIff(users: seq<User>, username: Option<string>, code: Option<string>)
    requires UsersValid(users)
    ensures GetToken(users, username, code).Token? <==>
      !Falsy(username) && !Falsy(code) &&
      exists i :: 0 <= i < |users| && Some(users[i].username) == username && users[i].confirmationCode == code
  {
    if i :| 0 <= i < |users| && Some(users[i].username) == username && users[i].confirmationCode == code {
      if !Falsy(username) {
        TokenChecksInOrder(users, i, code, true);
      }
    }
  }

  // ---------------------------------------------------------------------------
  // APISignup.post

  /** The confirmation mail: recipient, the username it greets, and the code. */
  datatype Mail = Mail(to: string, username: string, code: string)

  /** The answers of signup: the form's errors, the integrity error, or the
      validated username and email echoed back. */
  datatype SignupResponse =
    | SignupInvalid(form: SignupForm)
    | SignupClash
    | SignupOk(username: string, email: string)
  {
    function Status(): int {
      if SignupOk? then 200 else 400
    }
  }

  /** What a signup will do to the user table. */
  datatype SignupPlan = Invalid(form: SignupForm) | Clash | Existing(index: nat) | Fresh

  /** The branch a signup takes: the form fails, or `get_or_create` finds the
      (username, email) row, or it would create one but a unique column is
      taken, or it creates one. */
  function PlanSignup(users: seq<User>, data: SignupData, isWordChar: char -> bool,
                      isEmail: string -> bool): (p: SignupPlan)
    ensures p.Invalid? <==> ValidateSignup(data, users, isWordChar, isEmail).Errors?
    ensures p.Invalid? ==> p.form == ValidateSignup(data, users, isWordChar, isEmail)
    ensures p.Existing? ==> (p.index < |users| &&
      Some(users[p.index].username) == data.username && Some(users[p.index].email) == data.email)
    ensures p.Fresh? ==> forall i :: 0 <= i < |users| ==>
      Some(users[i].username) != data.username && Some(users[i].email) != data.email
    ensures ValidateSignup(data, users, isWordChar, isEmail).Clean? &&
      (exists i :: 0 <= i < |users| && Some(users[i].username) == data.username && Some(users[i].email) == data.email)
      ==> p.Existing?
    ensures ValidateSignup(data, users, isWordChar, isEmail).Clean? &&
      (forall i :: 0 <= i < |users| ==> Some(users[i].username) != data.username && Some(users[i].email) != data.email)
      ==> p.Fresh?
    ensures p.Clash? <==>
      && ValidateSignup(data, users, isWordChar, isEmail).Clean?
      && (forall i :: 0 <= i < |users| ==> !(Some(users[i].username) == data.username && Some(users[i].email) == data.email))
      && (exists i :: 0 <= i < |users| && (Some(users[i].username) == data.username || Some(users[i].email) == data.email))
  {
    var form := ValidateSignup(data, users, isWordChar, isEmail);
    if form.Errors? then Invalid(form)
    else match FirstIndex(users, UserWithNameAndEmail(form.username, form.email))
      case Some(i) => Existing(i)
      case None =>
        if FirstIndex(users, UserNamed(form.username)).Some? || FirstIndex(users, UserWithEmail(form.email)).Some?
        then Clash else Fresh
  }

  /** After the form passes, a clash can only come from the username: its row
      holds another email. An email on file always comes with its own
      username, which makes the pair an existing one. */
  lemma SignupClashMeansUsernameTaken(users: seq<User>, data: SignupData, isWordChar: char -> bool,
                                      isEmail: string -> bool)
    requires UsersValid(users)
    requires PlanSignup(users, data, isWordChar, isEmail).Clash?
    ensures exists i :: 0 <= i < |users| && Some(users[i].username) == data.username && Some(users[i].email) != data.email
  {
    var form := ValidateSignup(data, users, isWordChar, isEmail);
    CleanSignupMeaning(data, users, isWordChar, isEmail);
    assert FirstIndex(users, UserWithNameAndEmail(form.username, form.email)).None?;
    var named := FirstIndex(users, UserNamed(form.username));
    if named.Some? {
      assert !UserWithNameAndEmail(form.username, form.email)(users[named.value]);
    } else {
      assert false;
    }
  }

  /** Signup stores a username without running the model's validator: on an
      empty table a one-letter name is accepted, though the column's validator
      refuses it. */
  lemma SignupSkipsModelValidator(isWordChar: char -> bool, isEmail: string -> bool, email: string)
    requires isWordChar('x')
    requires email != "" && |email| <= EMAIL_MAX && isEmail(email) && NoNulCharacter(email)
    ensures PlanSignup([], SignupData(Some("x"), Some(email)), isWordChar, isEmail) == Fresh
    ensures ValidateUsername("x") == Rejected(BadCharacters)
  {
    assert SignupPattern("x", isWordChar) by {
      assert forall i :: 0 <= i < |"x"| ==> "x"[i] == 'x';
    }
    assert !SearchName("x") by {
      assert "x"[1..] == [];
    }
  }

  /** `APISignup.post`: validate, derive the code from the username, get or
      create the row, save the code on it, and mail it. */
  method Signup(db: Store, data: SignupData, isWordChar: char -> bool, isEmail: string -> bool,
                uuid3: string -> string) returns (resp: SignupResponse, mail: Option<Mail>)
    requires db.Valid()
    modifies db
    ensures db.Valid()
    ensures var p := PlanSignup(old(db.users), data, isWordChar, isEmail);
      && (p.Invalid? ==> resp == SignupInvalid(p.form))
      && (p.Clash? ==> resp == SignupClash)
      && (p.Existing? || p.Fresh? ==> resp == SignupOk(data.username.value, data.email.value))
    ensures !resp.SignupOk? ==> db.users == old(db.users) && db.nextUserId == old(db.nextUserId) && mail.None?
    ensures resp.SignupOk? ==> mail == Some(Mail(resp.email, resp.username, uuid3(resp.username)))
    ensures resp.SignupOk? ==>
      exists k :: 0 <= k < |db.users| && db.users[k].username == resp.username && db.users[k].email == resp.email
                  && !ConfirmationCodeRejects(db.users[k], uuid3(resp.username))
    ensures var p := PlanSignup(old(db.users), data, isWordChar, isEmail);
      p.Existing? ==>
        && db.users == old(db.users)[p.index := old(db.users)[p.index].(confirmationCode := Some(uuid3(data.username.value)))]
        && db.nextUserId == old(db.nextUserId)
    ensures var p := PlanSignup(old(db.users), data, isWordChar, isEmail);
      p.Fresh? ==>
        && db.users == old(db.users) + [NewUser(old(db.nextUserId), data.username.value, data.email.value)
                                          .(confirmationCode := Some(uuid3(data.username.value)))]
        && db.nextUserId == old(db.nextUserId) + 1
    ensures db.categories == old(db.categories) && db.genres == old(db.genres) && db.titles == old(db.titles)
    ensures db.reviews == old(db.reviews) && db.comments == old(db.comments) && db.nextReviewId == old(db.nextReviewId)
  {
    var form := ValidateSignup(data, db.users, isWordChar, isEmail);
    if form.Errors? {
      return SignupInvalid(form), None;
    }
    var code := uuid3(form.username);
    var got := db.GetOrCreateUser(form.username, form.email);
    if got.IntegrityError? {
      return SignupClash, None;
    }
    db.SaveConfirmationCode(got.index, code);
    var user := db.users[got.index];
    mail := Some(Mail(user.email, user.username, user.confirmationCode.value));
    resp := SignupOk(form.username, form.email);
  }

  // ---------------------------------------------------------------------------
  // ReviewViewSet: POST of a review

  /** The answers of a review POST. */
  datatype ReviewResponse = ReviewInvalid | ReviewDuplicate | TitleNotFound | ReviewCreated(review: Review)
  {
    function Status(): int {
      match this
      case ReviewInvalid => 400
      case ReviewDuplicate => 400
      case TitleNotFound => 404
      case ReviewCreated(_) => 201
    }
  }

  /** A review POST by row `me` on the title named in the URL: the field
      checks, the duplicate check, the title lookup, then `perform_create`
      saves the review with the requester as author and that title. */
  method CreateReview(db: Store, me: nat, titleId: nat, text: Option<string>, score: Option<int>)
    returns (resp: ReviewResponse)
    requires db.Valid() && me < |db.users|
    modifies db
    ensures db.Valid()
    ensures resp == ReviewInvalid <==> CheckReviewFields(text, score).None?
    ensures resp == ReviewDuplicate <==>
      && CheckReviewFields(text, score).Some?
      && (exists i :: 0 <= i < |old(db.reviews)| && old(db.reviews)[i].author == old(db.users)[me].id && old(db.reviews)[i].title == titleId)
    ensures resp == TitleNotFound <==>
      && CheckReviewFields(text, score).Some?
      && (forall i :: 0 <= i < |old(db.reviews)| ==> !(old(db.reviews)[i].author == old(db.users)[me].id && old(db.reviews)[i].title == titleId))
      && titleId !in KeySet(old(db.titles), TitleIdOf)
    ensures resp.ReviewCreated? <==>
      && CheckReviewFields(text, score).Some?
      && (forall i :: 0 <= i < |old(db.reviews)| ==> !(old(db.reviews)[i].author == old(db.users)[me].id && old(db.reviews)[i].title == titleId))
      && titleId in KeySet(old(db.titles), TitleIdOf)
    ensures resp.ReviewCreated? ==>
      && resp.review == Review(old(db.nextReviewId), old(db.users)[me].id, titleId, text.value, score.value)
      && db.reviews == old(db.reviews) + [resp.review]
      && db.nextReviewId == old(db.nextReviewId) + 1
    ensures !resp.ReviewCreated? ==> db.reviews == old(db.reviews) && db.nextReviewId == old(db.nextReviewId)
    ensures db.users == old(db.users) && db.categories == old(db.categories) && db.genres == old(db.genres)
    ensures db.titles == old(db.titles) && db.comments == old(db.comments) && db.nextUserId == old(db.nextUserId)
  {
    var fields := CheckReviewFields(text, score);
    if fields.None? {
      return ReviewInvalid;
    }
    var author := db.users[me].id;
    var data := ValidateReview(true, db.reviews, author, titleId, fields.value);
    if data.None? {
      return ReviewDuplicate;
    }
    var found := FirstIndex(db.titles, TitleWithId(titleId));
    if found.None? {
      return TitleNotFound;
    }
    assert TitleIdOf(db.titles[found.value]) in KeySet(db.titles, TitleIdOf);
    assert UserIdOf(db.users[me]) in KeySet(db.users, UserIdOf);
    var review := db.InsertReview(author, titleId, data.value.text, data.value.score);
    resp := ReviewCreated(review);
  }

  // ---------------------------------------------------------------------------
  // UserViewSet.my_profile: PATCH

  /** The answers of a profile PATCH: the failing fields, or the saved row. */
  datatype ProfileResponse = ProfileInvalid(fields: set<ProfileField>) | ProfileSaved(user: User)
  {
    function Status(): int {
      if ProfileSaved? then 200 else 400
    }
  }

  /** The PATCH of `users/me/` by row `me`: a partial validation of the body
      against the requester's row, then a save of the keys present. `maxName`
      is the configured column length of names. */
  method PatchMyProfile(db: Store, me: nat, patch: ProfilePatch, isEmail: string -> bool, maxName: nat)
    returns (resp: ProfileResponse)
    requires db.Valid() && me < |db.users|
    modifies db
    ensures db.Valid()
    ensures resp.ProfileInvalid? <==> ProfileErrors(old(db.users), me, patch, isEmail, maxName) != {}
    ensures resp.ProfileInvalid? ==> resp.fields == ProfileErrors(old(db.users), me, patch, isEmail, maxName) && db.users == old(db.users)
    ensures resp.ProfileSaved? ==>
      resp.user == ApplyProfilePatch(old(db.users)[me], patch) && db.users == old(db.users)[me := resp.user]
    ensures db.categories == old(db.categories) && db.genres == old(db.genres) && db.titles == old(db.titles)
    ensures db.reviews == old(db.reviews) && db.comments == old(db.comments)
    ensures db.nextUserId == old(db.nextUserId) && db.nextReviewId == old(db.nextReviewId)
  {
    var errors := ProfileErrors(db.users, me, patch, isEmail, maxName);
    if errors != {} {
      return ProfileInvalid(errors);
    }
    var u := ApplyProfilePatch(db.users[me], patch);
    ValidPatchKeepsUnique(db.users, me, patch, isEmail, maxName);
    db.SaveUser(me, u);
    resp := ProfileSaved(u);
  }
}
