# api_yamdb core, modelled in Dafny

api_yamdb is a REST backend for a review-aggregation service. It stores titles
with categories and genres, user reviews with a score from 1 to 10, comments on
reviews, and users who sign up by e-mail and exchange a confirmation code for
an access token. This project models the part of it that has logic of its own.
Everything else is framework configuration.

- **Username validator** (`validators.dfy`, module `Validators`). This is the
  model column's validator. It refuses `"me"`, then runs the anchored search
  `^[a-zA-Z][a-zA-Z0-9-_\.]{1,20}$`. The engine's run is modelled step by step,
  including `$` matching before one final newline. It is proved equal to a
  plain reading of the pattern.
- **Records and tables** (`models.dfy`, module `Models`):
  - users, categories, genres, titles, reviews and comments;
  - the role properties, the column defaults and the confirmation-code check;
  - the invariant the database keeps: unique columns, the (author, title)
    constraint, scores in [1, 10], and foreign keys that resolve;
  - value-level lemmas that every delete (with its `on_delete` effects),
    insert and row update keeps that invariant.
- **The database** (`database.dfy`, module `Database`). Class `Store` holds one
  table per model. Methods change the tables in place: the five deletes with
  their SET_NULL / CASCADE effects, `create_user`, `get_or_create`, saving a
  user row and inserting a review.
- **Serializer hooks** (`serializers.dfy`, module `Serializers`). These are pure
  functions of the submitted data and a read-only snapshot of the tables:
  - `validate_role`;
  - the signup form (field checks, `validate_username`, `validate_email`);
  - `GetTokenSerializer.validate`;
  - the partial profile form;
  - `validate_year`;
  - the review field checks and `ReviewSerializer.validate`;
  - `get_rating`, the exact mean of a title's scores.
- **Handlers** (`views.dfy`, module `Views`):
  - the token exchange, as a decision chain;
  - signup, as a method on the store: validate, get or create, save the code,
    return the mail;
  - the review POST and the profile PATCH, as methods on the store.

`common.dfy` (module `Common`) holds the table helpers: `Option`, row
filtering, key uniqueness, key sets and first-match lookup.

Three things are parameters because their code is not part of this model:
- `uuid3` becomes `uuid3: string -> string`;
- the regex engine's Unicode `\w` becomes `isWordChar: char -> bool`;
- the e-mail format validator becomes `isEmail: string -> bool`.

The current year for `validate_year` and the configured name length
(`MAX_LENGTH_NAME`) are parameters too.

Three behaviours of the code are worth stating up front, because the model
follows them:
- **The token is never issued.** `APIGetToken.post` builds its serializer
  without the looked-up user (api_yamdb/api/views.py:91), and the serializer's
  `validate` reads `self.instance` (api_yamdb/api/serializers.py:82). A
  matching code therefore ends in an unhandled error (see Findings).
- **Signup skips the username pattern.** `APISignup.post` stores the name
  through `get_or_create` (api_yamdb/api/views.py:106-110), which runs no
  column validator. So the store invariant does not claim the pattern
  (`Views.SignupSkipsModelValidator`).
- **The code is derived, not random.** The confirmation code is `uuid3` of the
  username (api_yamdb/api/views.py:105), so it is the same on every signup.

## Model

| member | source | states |
|---|---|---|
| Validators.ValidateUsername | api_yamdb/reviews/validators.py:6-16 | Accepts iff the value is not "me" and the pattern holds (with `$` also matching before one final newline). "me" is refused as reserved. The function has no effect besides the verdict. |
| Validators.SearchNameIsPattern | api_yamdb/reviews/validators.py:12 | The anchored search run by the regex engine succeeds exactly on an ASCII letter followed by 1 to 20 class characters, optionally followed by one `\n`. |
| Validators.MatchTailMeaning | api_yamdb/reviews/validators.py:12 | The engine's run of the bounded repeat followed by `$` accepts exactly a 1..20-character run of the class, optionally followed by one newline. |
| Validators.MeMatchesPattern | api_yamdb/reviews/validators.py:7-12 | "me" matches the pattern, so the explicit first check is what refuses it. |
| Validators.AcceptedShape | api_yamdb/reviews/validators.py:12 | An accepted name starts with an ASCII letter. It has 2 to 21 characters, or 3 to 22 with a final newline. Every character in between is a letter, a digit, `-`, `_` or `.`. |
| Validators.TrailingNewlineAccepted | api_yamdb/reviews/validators.py:12 | "ab\n" is accepted, because `$` matches before a final newline. |
| Models.NewUser | api_yamdb/reviews/models.py:22-57 | A user created from a username and an email has role "user", code "XXXX", and empty bio and names. |
| Models.ConfirmationCodeRejectsIff | api_yamdb/reviews/models.py:59-61 | The code check raises iff the stored code is null or differs from the submitted value. |
| Models.RolePropertiesExclusive | api_yamdb/reviews/models.py:63-73 | At most one of is_user / is_admin / is_moderator holds. One holds iff the role is one of the three choices. |
| Models.UnlinkCategory | api_yamdb/reviews/models.py:118-124 | SET_NULL: titles of the deleted category get a null category. Every other column and every other title is unchanged. |
| Models.UnlinkGenre | api_yamdb/reviews/models.py:114-117 | Deleting a genre removes exactly that genre from every title's links. Everything else is unchanged. |
| Models.UnlinkCategoryKeepsTitlesValid | api_yamdb/reviews/models.py:118-124 | After SET_NULL, title ids stay unique and every remaining category reference resolves to a surviving category. |
| Models.UnlinkGenreKeepsTitlesValid | api_yamdb/reviews/models.py:114-117 | After a genre delete, every remaining genre link resolves to a surviving genre. |
| Models.FilterKeepsReviewRows | api_yamdb/reviews/models.py:148-171 | Removing reviews keeps scores in [1, 10], review ids unique and (author, title) unique. |
| Models.CommentsFollowReviews | api_yamdb/reviews/models.py:183-187 | After review rows go, the comments left by the cascade have resolvable reviews and authors. |
| Models.DeleteCategoryKeepsValid | api_yamdb/reviews/models.py:118-124 | A category delete with SET_NULL keeps the whole store invariant. |
| Models.DeleteGenreKeepsValid | api_yamdb/reviews/models.py:114-117 | A genre delete keeps the whole store invariant. |
| Models.DeleteTitleKeepsValid | api_yamdb/reviews/models.py:143-147 | A title delete, cascading to its reviews and their comments, keeps the whole store invariant. |
| Models.DeleteReviewKeepsValid | api_yamdb/reviews/models.py:183-187 | A review delete, cascading to its comments, keeps the whole store invariant. |
| Models.DeleteUserKeepsValid | api_yamdb/reviews/models.py:137-141 | A user delete keeps the whole store invariant. It cascades to the user's reviews, to comments on those reviews, and to the user's comments. |
| Models.InsertUserKeepsValid | api_yamdb/reviews/models.py:22-32 | Appending a user with a fresh id, a free username and a free email keeps usernames and emails unique and the store valid. |
| Models.ReplaceUserKeepsValid | api_yamdb/reviews/models.py:22-32 | Rewriting a user row with its id kept, and a username and email no other row holds, keeps the store valid. |
| Models.InsertReviewKeepsValid | api_yamdb/reviews/models.py:166-171 | Appending an in-range review, with existing author and title and a new (author, title) pair, keeps the store valid. |
| Database.Store.DeleteCategory | api_yamdb/reviews/models.py:118-124 | Removes the category and nulls its titles' category. The store stays valid and every other table is unchanged. |
| Database.Store.DeleteGenre | api_yamdb/reviews/models.py:114-117 | Removes the genre and its title links. The store stays valid and every other table is unchanged. |
| Database.Store.DeleteTitle | api_yamdb/reviews/models.py:143-147 | Removes the title, its reviews, and the comments on those reviews. The store stays valid. |
| Database.Store.DeleteReview | api_yamdb/reviews/models.py:183-187 | Removes the review and its comments. The store stays valid. |
| Database.Store.DeleteUser | api_yamdb/reviews/models.py:137-141 | Removes the user, their reviews, their comments and the comments on their reviews. The store stays valid. |
| Database.Store.CreateUser | api_yamdb/api/serializers.py:54-58 | Appends a default user when neither the username nor the email is taken. Otherwise it is an integrity error and the table is unchanged. |
| Database.Store.GetOrCreateUser | api_yamdb/api/views.py:106-115 | Finds the row with both the username and the email. Otherwise it creates one, or fails on a taken username or email with the table unchanged. |
| Database.Store.SaveConfirmationCode | api_yamdb/api/views.py:117-118 | Sets only that row's code. All other rows and tables are unchanged and the store stays valid. |
| Database.Store.SaveUser | api_yamdb/api/views.py:68 | Saves one user row with its id kept and its username and email unique. The store stays valid. |
| Database.Store.InsertReview | api_yamdb/api/views.py:166-170 | Appends the review with the next id. The store stays valid. |
| Serializers.ValidateRole | api_yamdb/api/serializers.py:22-29 | A non-admin instance gets its stored role back. An admin instance, or no instance, gets the requested role. |
| Serializers.NoSelfPromotion | api_yamdb/api/serializers.py:22-26 | A non-admin never obtains "admin". The result is always the stored role or the requested one. |
| Serializers.SignupValidateUsername | api_yamdb/api/serializers.py:60-65 | Refuses exactly "me" and returns every other username unchanged. |
| Serializers.CheckSignupUsername | api_yamdb/api/serializers.py:47-51 | The signup username passes iff it is present, is not "me", has at most 150 characters, matches `^[\w.@+-]+\Z` and holds no NUL character (every DRF character field refuses NUL). It passes unchanged. |
| Serializers.SignupRefusesMe | api_yamdb/api/serializers.py:47-65 | "me" passes the signup pattern and is refused by validate_username as reserved. |
| Serializers.SignupValidateEmail | api_yamdb/api/serializers.py:67-74 | A refused email is held by a user whose username differs from the submitted one. An email nobody holds passes. |
| Serializers.SignupEmailRefusedIff | api_yamdb/api/serializers.py:67-74 | With unique emails, the email is refused iff an existing user holds it under a different username than the one submitted. |
| Serializers.CheckSignupEmail | api_yamdb/api/serializers.py:52-74 | The signup email passes iff it is present, non-blank, at most 254 characters, well formed, free of NUL characters, and accepted by validate_email. |
| Serializers.ValidateSignup | api_yamdb/api/serializers.py:46-74 | The form is clean iff both fields pass. A clean form carries exactly the submitted values, and a failed one names at least one field error. |
| Serializers.CleanSignupMeaning | api_yamdb/api/serializers.py:60-74 | A clean signup never carries "me". An email on file passes only with the username of its own row. |
| Serializers.ValidateTokenAttrs | api_yamdb/api/serializers.py:81-83 | Without an instance, validation fails on the missing instance. With one, it refuses iff the code differs from the stored one. |
| Serializers.ScoresOfEmptyIff | api_yamdb/api/serializers.py:120-121 | A title has scores iff some review of it is in the table. |
| Serializers.Rating | api_yamdb/api/serializers.py:119-123 | The rating is none iff the title has no reviews. Otherwise rating × count equals the sum of its scores, so it is the exact mean. |
| Serializers.RatingInScoreRange | api_yamdb/api/serializers.py:119-123 | With every score in [1, 10], a rating lies in [1, 10]. |
| Serializers.RatingIgnoresOtherTitleDeletes | api_yamdb/api/serializers.py:119-123 | Deleting the reviews of another title leaves this title's rating unchanged. |
| Serializers.RatingIgnoresOtherInsert | api_yamdb/api/serializers.py:119-123 | A new review of another title leaves this title's rating unchanged. |
| Serializers.RatingAfterOwnInsert | api_yamdb/api/serializers.py:119-123 | A new review of this title makes the rating (old sum + score) / (old count + 1). |
| Serializers.RatingOfSingleReview | api_yamdb/api/serializers.py:119-123 | A single review with score 8 rates its title 8.0. |
| Serializers.ValidateYear | api_yamdb/api/serializers.py:141-147 | Refuses iff the year is after the current year. Otherwise it returns the value unchanged. |
| Serializers.YearStaysAccepted | api_yamdb/api/serializers.py:141-147 | A year accepted in one year stays accepted in every later year. |
| Serializers.CheckReviewFields | api_yamdb/reviews/models.py:142-154 | The review body passes iff the text is present, non-blank and free of NUL characters, and the score is present and in [1, 10]. |
| Serializers.ValidateReview | api_yamdb/api/serializers.py:157-166 | Non-POST data passes unchanged. A POST is refused iff this user already reviewed this title. |
| Serializers.AcceptedReviewKeepsUnique | api_yamdb/api/serializers.py:157-166 | A POST that passes the check can be stored without breaking the (author, title) constraint. |
| Serializers.ProfileErrors | api_yamdb/api/serializers.py:10-20 | Each field present in a PATCH is refused iff its column rules fail. Username: non-blank, length, model validator, unique among other rows. Email: non-blank, 254, format, no NUL, unique among other rows. First and last name: length and no NUL. Bio: no NUL. Role: a choice or blank. |
| Serializers.ValidatedUsernameHasNoNul | api_yamdb/reviews/validators.py:6-16 | A username the model validator accepts holds no NUL character, so the character field's own NUL check never refuses a name the validator lets through. |
| Serializers.ApplyProfilePatch | api_yamdb/api/serializers.py:10-29 | Each key present in the PATCH overwrites its column, and each absent key leaves its column as stored (username, email, first and last name, bio). A present role goes through validate_role against the stored row. The id and the code never change. |
| Serializers.PatchKeepsNonAdminRole | api_yamdb/api/serializers.py:22-26 | A non-admin's PATCH never changes their role. Only the other keys can change the row. |
| Serializers.ValidPatchKeepsUnique | api_yamdb/api/serializers.py:10-20 | A PATCH that passes validation leaves the row's username and email held by no other row. |
| Views.ExchangeToken | api_yamdb/api/views.py:75-94 | A missing username gives 400 before any lookup, and an unknown one gives 404. A token is only issued for the named user's non-empty stored code. A 500 arises only with no bound instance and a matching code. |
| Views.TokenChecksInOrder | api_yamdb/api/views.py:78-90 | For an existing user: a missing code gives 400, then a different code gives 400, then the serializer decides. |
| Views.GetTokenAsWritten | api_yamdb/api/views.py:89-94 | The handler as written never issues a token. Its 500 happens only on a matching code. |
| Views.GetToken | api_yamdb/api/views.py:89-94 | With the user bound to the serializer, a token is only issued for a matching code, and there is no 500. |
| Views.AsWrittenNeverIssuesToken | api_yamdb/api/views.py:91-94 | As written, the answer is never 200. It is 500 exactly when the username and a non-empty code match a stored user. |
| Views.CorrectedIssuesTokenIff | api_yamdb/api/views.py:89-94 | Corrected, a token is issued iff the username and a non-empty code match a stored user. |
| Views.PlanSignup | api_yamdb/api/views.py:100-115 | The signup branch is one of four. Errors iff the form fails. For a clean form: an existing row iff some row holds both values; fresh iff no row holds either value; a clash iff no row holds the pair but some row holds the username or the email. |
| Views.SignupClashMeansUsernameTaken | api_yamdb/api/views.py:106-115 | After the form passes, a clash always means the username is held by a row with another email. |
| Views.SignupSkipsModelValidator | api_yamdb/api/views.py:106-110 | On an empty table, signup creates the user "x", although the column's username validator refuses it. |
| Views.Signup | api_yamdb/api/views.py:100-129 | Form errors and clashes give 400 with the table unchanged and no mail. An existing pair only gets its code set to uuid3(username). A fresh pair appends exactly one user with that code. The response echoes only the username and email, and the mail carries the code. After a 200, the row with that username and email no longer rejects uuid3(username) in the code check. |
| Views.CreateReview | api_yamdb/api/views.py:161-170 | Checks run in order, and each answer comes exactly when its check is the first to fail: the fields (400, iff they fail), the duplicate (400, iff the fields pass and the author already reviewed the title), the title (404, iff both pass and no title has the id). A created review has the requester as author, the title from the URL, the next id and the submitted text and score. The store stays valid. |
| Views.PatchMyProfile | api_yamdb/api/views.py:62-69 | Invalid fields give 400 and change nothing. Otherwise only the requester's row becomes the patched row, and the store stays valid. |

## Left out

- E-mail delivery: the mail is returned as a `Mail` value and not sent.
- JWT issuance: a token is represented by the id of its user. Token format, signing and expiry are not modelled.
- `uuid3`, the Unicode `\w` class and the e-mail format validator: these are library code, passed in as functions.
- `datetime.now()` and the settings value `MAX_LENGTH_NAME`: both are passed in as parameters.
- Serializers.Rating: gives the exact mean as a real. The float average and `round(..., 1)` are not modelled.
- Serializers.CheckSignupUsername: reports one error per field. DRF collects every failing validator's message; the outcome (pass or fail) is the same.
- Serializers.CheckSignupEmail: the same single-error simplification as the username field.
- Whitespace trimming of text fields and JSON `null` values: inputs are taken as already-trimmed strings or absent keys.
- Lone surrogate code points: DRF character fields also refuse them, but a Dafny `char` cannot hold one, so no modelled input contains one.
- Unicode normalisation of usernames and domain lower-casing of emails in `create_user`: not modelled. `CreateUser` stores the strings as given.
- Database.Store.GetOrCreateUser: concurrent signups and the retry inside `get_or_create` are not modelled. Requests are sequential.
- Authentication and permissions (`api.permissions` is not part of this model). The requester is given as a row index.
- Pagination, filtering, search, ordering, `pub_date` stamps, and the GET paths that only read.
- Comment creation and category/genre/title creation through their serializers: these are generic model saves. Their deletes are modelled as the `Store` delete methods.
- The admin user endpoints (`UserViewSet` create, list, retrieve, update and delete): not modelled as handlers. They use the same `UserSerializer`, so `validate_role` (`Serializers.ValidateRole`) applies to them too: a role edit on a non-admin row is silently ignored, whoever makes the request. Their deletes are `Database.Store.DeleteUser`.
- The CSV import command, URL routing and admin-site registration: I/O and configuration.

## Findings

| source | as written | input that shows it | evidently intended | confidence | as-written member | corrected member |
|---|---|---|---|---|---|---|
| api_yamdb/api/views.py:91 | The token serializer is built with `data=` only. Its `validate` (api_yamdb/api/serializers.py:82) calls `self.instance.validate_confirmation_code`. On `None` that raises AttributeError, which surfaces as a 500. | Signup as "alice" with any valid email. Then POST the token endpoint with username "alice" and the code sent by mail. | The serializer is bound to the looked-up user, and the matching code yields a token for that user. | high, not executed | Views.GetTokenAsWritten | Views.GetToken |
