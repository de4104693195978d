/** The data layer: the user record with its role properties and confirmation
    code check, the catalogue and review records, the uniqueness and foreign-key
    constraints the database enforces, and the `on_delete` behaviour of every
    foreign key, applied in place to a store of tables. */
module Models {
  import opened Common

  const USER := "user"
  const ADMIN := "admin"
  const MODERATOR := "moderator"
  /** The values the `role` column offers. */
  const ROLE_CHOICES: seq<string> := [USER, ADMIN, MODERATOR]
  /** The column default of `confirmation_code`. */
  const DEFAULT_CODE := "XXXX"

  /** A user row. `role` is a free string limited by its choice list at the
      serializer boundary only; `confirmationCode` is nullable. */
  datatype User = User(
    id: nat,
    username: string,
    email: string,
    role: string,
    bio: string,
    firstName: string,
    lastName: string,
    confirmationCode: Option<string>)
  {
    predicate IsUser() { role == USER }
    predicate IsAdmin() { role == ADMIN }
    predicate IsModerator() { role == MODERATOR }
  }

  /** A user created with only a username and an email: every other column
      takes its default. */
  function NewUser(id: nat, username: string, email: string): (u: User)
    ensures u.id == id && u.username == username && u.email == email
    ensures u.IsUser() && !u.IsAdmin() && !u.IsModerator()
    ensures u.confirmationCode == Some(DEFAULT_CODE)
    ensures u.bio == "" && u.firstName == "" && u.lastName == ""
  {
    User(id, username, email, USER, "", "", "", Some(DEFAULT_CODE))
  }

  /** `validate_confirmation_code`: true when it raises. A null stored code
      differs from every submitted string. */
  predicate ConfirmationCodeRejects(u: User, value: string) {
    u.confirmationCode != Some(value)
  }

  lemma ConfirmationCodeRejectsIff(u: User, value: string)
    ensures ConfirmationCodeRejects(u, value) <==> (u.confirmationCode.None? || u.confirmationCode.value != value)
  {
  }

  /** At most one role property holds, and exactly one holds iff the role is
      one of the offered choices. */
  lemma RolePropertiesExclusive(u: User)
    ensures !(u.IsUser() && u.IsAdmin()) && !(u.IsUser() && u.IsModerator()) && !(u.IsAdmin() && u.IsModerator())
    ensures (u.IsUser() || u.IsAdmin() || u.IsModerator()) <==> u.role in ROLE_CHOICES
  {
  }

  datatype Category = Category(id: nat, name: string, slug: string)
  datatype Genre = Genre(id: nat, name: string, slug: string)
  /** `genres` holds the ids of the linked genres (the many-to-many rows). */
  datatype Title = Title(id: nat, name: string, year: int, description: string,
                         genres: set<nat>, category: Option<nat>)
  datatype Review = Review(id: nat, author: nat, title: nat, text: string, score: int)
  datatype Comment = Comment(id: nat, author: nat, review: nat, text: string)

  const MIN_SCORE := 1
  const MAX_SCORE := 10

  // Columns, as named functions so that every constraint speaks of the same term.
  function UserIdOf(u: User): nat { u.id }
  function UsernameOf(u: User): string { u.username }
  function EmailOf(u: User): string { u.email }
  function CategoryIdOf(c: Category): nat { c.id }
  function CategorySlugOf(c: Category): string { c.slug }
  function GenreIdOf(g: Genre): nat { g.id }
  function GenreSlugOf(g: Genre): string { g.slug }
  function TitleIdOf(t: Title): nat { t.id }
  function ReviewIdOf(r: Review): nat { r.id }
  function ReviewAuthorOf(r: Review): nat { r.author }
  function ReviewTitleOf(r: Review): nat { r.title }
  /** The columns of the `unique_author_title` constraint. */
  function AuthorTitleOf(r: Review): (nat, nat) { (r.author, r.title) }
  function CommentIdOf(c: Comment): nat { c.id }
  function CommentAuthorOf(c: Comment): nat { c.author }
  function CommentReviewOf(c: Comment): nat { c.review }

  predicate UsersValid(us: seq<User>) {
    UniqueBy(us, UserIdOf) && UniqueBy(us, UsernameOf) && UniqueBy(us, EmailOf)
  }

  predicate CategoriesValid(cs: seq<Category>) {
    UniqueBy(cs, CategoryIdOf) && UniqueBy(cs, CategorySlugOf)
  }

  predicate GenresValid(gs: seq<Genre>) {
    UniqueBy(gs, GenreIdOf) && UniqueBy(gs, GenreSlugOf)
  }

  predicate TitlesValid(ts: seq<Title>, categoryIds: set<nat>, genreIds: set<nat>) {
    && UniqueBy(ts, TitleIdOf)
    && (forall i :: 0 <= i < |ts| ==> ts[i].category.Some? ==> ts[i].category.value in categoryIds)
    && (forall i :: 0 <= i < |ts| ==> ts[i].genres <= genreIds)
  }

  predicate ScoreInRange(score: int) { MIN_SCORE <= score <= MAX_SCORE }

  predicate ReviewsValid(rs: seq<Review>, userIds: set<nat>, titleIds: set<nat>) {
    && UniqueBy(rs, ReviewIdOf)
    && UniqueBy(rs, AuthorTitleOf)
    && (forall i :: 0 <= i < |rs| ==> ScoreInRange(rs[i].score))
    && Refs(rs, ReviewAuthorOf, userIds)
    && Refs(rs, ReviewTitleOf, titleIds)
  }

  predicate CommentsValid(cs: seq<Comment>, userIds: set<nat>, reviewIds: set<nat>) {
    && UniqueBy(cs, CommentIdOf)
    && Refs(cs, CommentAuthorOf, userIds)
    && Refs(cs, CommentReviewOf, reviewIds)
  }

  // Row selections used by the cascades.
  function UserOtherThan(uid: nat): User -> bool { (u: User) => u.id != uid }
  function CategoryOtherThan(cid: nat): Category -> bool { (c: Category) => c.id != cid }
  function GenreOtherThan(gid: nat): Genre -> bool { (g: Genre) => g.id != gid }
  function TitleOtherThan(tid: nat): Title -> bool { (t: Title) => t.id != tid }
  function ReviewOtherThan(rid: nat): Review -> bool { (r: Review) => r.id != rid }
  function ReviewWithId(rid: nat): Review -> bool { (r: Review) => r.id == rid }
  function ReviewOnTitle(tid: nat): Review -> bool { (r: Review) => r.title == tid }
  function ReviewNotOnTitle(tid: nat): Review -> bool { (r: Review) => r.title != tid }
  function ReviewBy(uid: nat): Review -> bool { (r: Review) => r.author == uid }
  function ReviewNotBy(uid: nat): Review -> bool { (r: Review) => r.author != uid }
  /** A comment outlives a delete when neither its author nor its review is among the deleted rows. */
  function CommentSurvives(uids: set<nat>, rids: set<nat>): Comment -> bool {
    (c: Comment) => c.author !in uids && c.review !in rids
  }

  /** `on_delete=SET_NULL` on `Title.category`: titles of the deleted category lose it. */
  function UnlinkCategory(ts: seq<Title>, cid: nat): (r: seq<Title>)
    ensures |r| == |ts|
    ensures forall i :: 0 <= i < |ts| ==> r[i].category == (if ts[i].category == Some(cid) then None else ts[i].category)
    ensures forall i :: 0 <= i < |ts| ==> r[i] == ts[i].(category := r[i].category)
  {
    seq(|ts|, i requires 0 <= i < |ts| => if ts[i].category == Some(cid) then ts[i].(category := None) else ts[i])
  }

  /** Deleting a genre deletes its many-to-many rows: titles lose the link only. */
  function UnlinkGenre(ts: seq<Title>, gid: nat): (r: seq<Title>)
    ensures |r| == |ts|
    ensures forall i :: 0 <= i < |ts| ==> gid !in r[i].genres && r[i].genres + {gid} >= ts[i].genres && r[i].genres <= ts[i].genres
    ensures forall i :: 0 <= i < |ts| ==> r[i] == ts[i].(genres := r[i].genres)
  {
    seq(|ts|, i requires 0 <= i < |ts| => ts[i].(genres := ts[i].genres - {gid}))
  }

  /** Titles survive a category delete with every reference resolvable. */
  lemma UnlinkCategoryKeepsTitlesValid(ts: seq<Title>, cs: seq<Category>, genreIds: set<nat>, cid: nat)
    requires TitlesValid(ts, KeySet(cs, CategoryIdOf), genreIds)
    ensures TitlesValid(UnlinkCategory(ts, cid), KeySet(Filter(cs, CategoryOtherThan(cid)), CategoryIdOf), genreIds)
  {
    var r := UnlinkCategory(ts, cid);
    forall i, j | 0 <= i < j < |r| ensures TitleIdOf(r[i]) != TitleIdOf(r[j]) {
      assert r[i].id == ts[i].id && r[j].id == ts[j].id;
    }
    forall i | 0 <= i < |r| && r[i].category.Some?
      ensures r[i].category.value in KeySet(Filter(cs, CategoryOtherThan(cid)), CategoryIdOf)
    {
      var c := r[i].category.value;
      assert c != cid && c in KeySet(cs, CategoryIdOf);
      var k :| 0 <= k < |cs| && cs[k].id == c;
      assert cs[k] in cs;
      KeptKeyStays(cs, CategoryOtherThan(cid), CategoryIdOf, cs[k]);
    }
    forall i | 0 <= i < |r| ensures r[i].genres <= genreIds {
      assert r[i].genres == ts[i].genres;
    }
  }

  /** Titles survive a genre delete with every link resolvable. */
  lemma UnlinkGenreKeepsTitlesValid(ts: seq<Title>, categoryIds: set<nat>, gs: seq<Genre>, gid: nat)
    requires TitlesValid(ts, categoryIds, KeySet(gs, GenreIdOf))
    ensures TitlesValid(UnlinkGenre(ts, gid), categoryIds, KeySet(Filter(gs, GenreOtherThan(gid)), GenreIdOf))
  {
    var r := UnlinkGenre(ts, gid);
    forall i, j | 0 <= i < j < |r| ensures TitleIdOf(r[i]) != TitleIdOf(r[j]) {
      assert r[i].id == ts[i].id && r[j].id == ts[j].id;
    }
    forall i | 0 <= i < |r| ensures r[i].genres <= KeySet(Filter(gs, GenreOtherThan(gid)), GenreIdOf) {
      forall g | g in r[i].genres ensures g in KeySet(Filter(gs, GenreOtherThan(gid)), GenreIdOf) {
        assert g in KeySet(gs, GenreIdOf) && g != gid;
        var k :| 0 <= k < |gs| && gs[k].id == g;
        assert gs[k] in gs;
        KeptKeyStays(gs, GenreOtherThan(gid), GenreIdOf, gs[k]);
      }
    }
    forall i | 0 <= i < |r| && r[i].category.Some? ensures r[i].category.value in categoryIds {
      assert r[i].category == ts[i].category;
    }
  }

  /** Filtering a table of reviews keeps every row-level review constraint. */
  lemma FilterKeepsReviewRows(rs: seq<Review>, keep: Review -> bool)
    requires forall i :: 0 <= i < |rs| ==> ScoreInRange(rs[i].score)
    requires UniqueBy(rs, ReviewIdOf) && UniqueBy(rs, AuthorTitleOf)
    ensures forall i :: 0 <= i < |Filter(rs, keep)| ==> ScoreInRange(Filter(rs, keep)[i].score)
    ensures UniqueBy(Filter(rs, keep), ReviewIdOf) && UniqueBy(Filter(rs, keep), AuthorTitleOf)
  {
    FilterKeepsUnique(rs, keep, ReviewIdOf);
    FilterKeepsUnique(rs, keep, AuthorTitleOf);
    var r := Filter(rs, keep);
    FilterMembers(rs, keep);
    forall i | 0 <= i < |r| ensures ScoreInRange(r[i].score) {
      assert r[i] in rs;
    }
  }

  /** A review removed by a cascade takes its id into the removed set. */
  lemma RemovedReviewId(rs: seq<Review>, gone: Review -> bool, r: Review)
    requires r in rs && gone(r)
    ensures r.id in KeySet(Filter(rs, gone), ReviewIdOf)
  {
    KeptKeyStays(rs, gone, ReviewIdOf, r);
  }

  /** Every unique column and constraint holds and every foreign key resolves. */
  predicate TablesValid(us: seq<User>, cs: seq<Category>, gs: seq<Genre>, ts: seq<Title>,
                        rs: seq<Review>, ms: seq<Comment>)
  {
    && UsersValid(us)
    && CategoriesValid(cs)
    && GenresValid(gs)
    && TitlesValid(ts, KeySet(cs, CategoryIdOf), KeySet(gs, GenreIdOf))
    && ReviewsValid(rs, KeySet(us, UserIdOf), KeySet(ts, TitleIdOf))
    && CommentsValid(ms, KeySet(us, UserIdOf), KeySet(rs, ReviewIdOf))
  }

  /** Only the category column of a title changes, so the title ids stay. */
  lemma UnlinkKeepsTitleIds(ts: seq<Title>, r: seq<Title>)
    requires |r| == |ts| && forall i :: 0 <= i < |ts| ==> r[i].id == ts[i].id
    ensures KeySet(r, TitleIdOf) == KeySet(ts, TitleIdOf)
  {
    forall x | x in KeySet(ts, TitleIdOf) ensures x in KeySet(r, TitleIdOf) {
      var k :| 0 <= k < |ts| && ts[k].id == x;
      assert TitleIdOf(r[k]) == x;
    }
  }

  lemma DeleteCategoryKeepsValid(us: seq<User>, cs: seq<Category>, gs: seq<Genre>, ts: seq<Title>,
                                 rs: seq<Review>, ms: seq<Comment>, cid: nat, nu: nat, nr: nat)
    requires StoreInvariant(us, cs, gs, ts, rs, ms, nu, nr)
    ensures StoreInvariant(us, Filter(cs, CategoryOtherThan(cid)), gs, UnlinkCategory(ts, cid), rs, ms, nu, nr)
  {
    UnlinkCategoryKeepsTitlesValid(ts, cs, KeySet(gs, GenreIdOf), cid);
    FilterKeepsUnique(cs, CategoryOtherThan(cid), CategoryIdOf);
    FilterKeepsUnique(cs, CategoryOtherThan(cid), CategorySlugOf);
    UnlinkKeepsTitleIds(ts, UnlinkCategory(ts, cid));
  }

  lemma DeleteGenreKeepsValid(us: seq<User>, cs: seq<Category>, gs: seq<Genre>, ts: seq<Title>,
                              rs: seq<Review>, ms: seq<Comment>, gid: nat, nu: nat, nr: nat)
    requires StoreInvariant(us, cs, gs, ts, rs, ms, nu, nr)
    ensures StoreInvariant(us, cs, Filter(gs, GenreOtherThan(gid)), UnlinkGenre(ts, gid), rs, ms, nu, nr)
  {
    UnlinkGenreKeepsTitlesValid(ts, KeySet(cs, CategoryIdOf), gs, gid);
    FilterKeepsUnique(gs, GenreOtherThan(gid), GenreIdOf);
    FilterKeepsUnique(gs, GenreOtherThan(gid), GenreSlugOf);
    UnlinkKeepsTitleIds(ts, UnlinkGenre(ts, gid));
  }

  /** The comments left by a delete still resolve when the reviews they point
      to are exactly the ones kept. */
  lemma CommentsFollowReviews(rs: seq<Review>, keepR: Review -> bool, goneR: Review -> bool,
                              ms: seq<Comment>, uids: set<nat>, userIds: set<nat>)
    requires forall r :: goneR(r) <==> !keepR(r)
    requires CommentsValid(ms, userIds, KeySet(rs, ReviewIdOf))
    requires forall i :: 0 <= i < |ms| && ms[i].author !in uids ==> ms[i].author in userIds - uids
    ensures CommentsValid(Filter(ms, CommentSurvives(uids, KeySet(Filter(rs, goneR), ReviewIdOf))),
                          userIds - uids, KeySet(Filter(rs, keepR), ReviewIdOf))
  {
    var keepC := CommentSurvives(uids, KeySet(Filter(rs, goneR), ReviewIdOf));
    var kept := Filter(ms, keepC);
    FilterMembers(ms, keepC);
    FilterKeepsUnique(ms, keepC, CommentIdOf);
    forall i | 0 <= i < |kept| ensures CommentAuthorOf(kept[i]) in userIds - uids {
      assert kept[i] in ms;
    }
    forall c, p | c in ms && keepC(c) && p in rs && ReviewIdOf(p) == CommentReviewOf(c)
      ensures keepR(p)
    {
      if goneR(p) { RemovedReviewId(rs, goneR, p); }
    }
    KeptRefsResolve(rs, keepR, ReviewIdOf, ms, keepC, CommentReviewOf);
  }

  lemma DeleteTitleKeepsValid(us: seq<User>, cs: seq<Category>, gs: seq<Genre>, ts: seq<Title>,
                              rs: seq<Review>, ms: seq<Comment>, tid: nat, nu: nat, nr: nat)
    requires StoreInvariant(us, cs, gs, ts, rs, ms, nu, nr)
    ensures StoreInvariant(us, cs, gs, Filter(ts, TitleOtherThan(tid)), Filter(rs, ReviewNotOnTitle(tid)),
                        Filter(ms, CommentSurvives({}, KeySet(Filter(rs, ReviewOnTitle(tid)), ReviewIdOf))), nu, nr)
  {
    FilterKeepsIdsBelow(rs, ReviewNotOnTitle(tid), ReviewIdOf, nr);
    var nts := Filter(ts, TitleOtherThan(tid));
    FilterMembers(ts, TitleOtherThan(tid));
    FilterKeepsUnique(ts, TitleOtherThan(tid), TitleIdOf);
    forall i | 0 <= i < |nts|
      ensures (nts[i].category.Some? ==> nts[i].category.value in KeySet(cs, CategoryIdOf))
           && nts[i].genres <= KeySet(gs, GenreIdOf)
    {
      assert nts[i] in ts;
    }
    FilterKeepsReviewRows(rs, ReviewNotOnTitle(tid));
    FilterKeepsRefs(rs, ReviewNotOnTitle(tid), ReviewAuthorOf, KeySet(us, UserIdOf));
    KeptRefsResolve(ts, TitleOtherThan(tid), TitleIdOf, rs, ReviewNotOnTitle(tid), ReviewTitleOf);
    assert KeySet(us, UserIdOf) - {} == KeySet(us, UserIdOf);
    CommentsFollowReviews(rs, ReviewNotOnTitle(tid), ReviewOnTitle(tid), ms, {}, KeySet(us, UserIdOf));
  }

  lemma DeleteReviewKeepsValid(us: seq<User>, cs: seq<Category>, gs: seq<Genre>, ts: seq<Title>,
                               rs: seq<Review>, ms: seq<Comment>, rid: nat, nu: nat, nr: nat)
    requires StoreInvariant(us, cs, gs, ts, rs, ms, nu, nr)
    ensures StoreInvariant(us, cs, gs, ts, Filter(rs, ReviewOtherThan(rid)),
                        Filter(ms, CommentSurvives({}, KeySet(Filter(rs, ReviewWithId(rid)), ReviewIdOf))), nu, nr)
  {
    FilterKeepsIdsBelow(rs, ReviewOtherThan(rid), ReviewIdOf, nr);
    FilterKeepsReviewRows(rs, ReviewOtherThan(rid));
    FilterKeepsRefs(rs, ReviewOtherThan(rid), ReviewAuthorOf, KeySet(us, UserIdOf));
    FilterKeepsRefs(rs, ReviewOtherThan(rid), ReviewTitleOf, KeySet(ts, TitleIdOf));
    assert KeySet(us, UserIdOf) - {} == KeySet(us, UserIdOf);
    CommentsFollowReviews(rs, ReviewOtherThan(rid), ReviewWithId(rid), ms, {}, KeySet(us, UserIdOf));
  }

  lemma DeleteUserKeepsValid(us: seq<User>, cs: seq<Category>, gs: seq<Genre>, ts: seq<Title>,
                             rs: seq<Review>, ms: seq<Comment>, uid: nat, nu: nat, nr: nat)
    requires StoreInvariant(us, cs, gs, ts, rs, ms, nu, nr)
    ensures StoreInvariant(Filter(us, UserOtherThan(uid)), cs, gs, ts, Filter(rs, ReviewNotBy(uid)),
                        Filter(ms, CommentSurvives({uid}, KeySet(Filter(rs, ReviewBy(uid)), ReviewIdOf))), nu, nr)
  {
    FilterKeepsIdsBelow(us, UserOtherThan(uid), UserIdOf, nu);
    FilterKeepsIdsBelow(rs, ReviewNotBy(uid), ReviewIdOf, nr);
    var nus := Filter(us, UserOtherThan(uid));
    FilterKeepsUnique(us, UserOtherThan(uid), UserIdOf);
    FilterKeepsUnique(us, UserOtherThan(uid), UsernameOf);
    FilterKeepsUnique(us, UserOtherThan(uid), EmailOf);
    FilterKeepsReviewRows(rs, ReviewNotBy(uid));
    KeptRefsResolve(us, UserOtherThan(uid), UserIdOf, rs, ReviewNotBy(uid), ReviewAuthorOf);
    FilterKeepsRefs(rs, ReviewNotBy(uid), ReviewTitleOf, KeySet(ts, TitleIdOf));
    assert KeySet(nus, UserIdOf) == KeySet(us, UserIdOf) - {uid} by {
      forall x | x in KeySet(us, UserIdOf) - {uid} ensures x in KeySet(nus, UserIdOf) {
        var k :| 0 <= k < |us| && us[k].id == x;
        assert us[k] in us;
        KeptKeyStays(us, UserOtherThan(uid), UserIdOf, us[k]);
      }
      forall x | x in KeySet(nus, UserIdOf) ensures x in KeySet(us, UserIdOf) - {uid} {
        FilteredKeyCameFromKept(us, UserOtherThan(uid), UserIdOf, x);
      }
    }
    CommentsFollowReviews(rs, ReviewNotBy(uid), ReviewBy(uid), ms, {uid}, KeySet(us, UserIdOf));
  }

  /** Every id in the table is below the table's counter. */
  predicate IdsBelow<T>(s: seq<T>, id: T -> nat, bound: nat) {
    forall i :: 0 <= i < |s| ==> id(s[i]) < bound
  }

  /** The store's invariant: valid tables, and counters above every id handed out. */
  predicate StoreInvariant(us: seq<User>, cs: seq<Category>, gs: seq<Genre>, ts: seq<Title>,
                           rs: seq<Review>, ms: seq<Comment>, nextUser: nat, nextReview: nat)
  {
    TablesValid(us, cs, gs, ts, rs, ms) && IdsBelow(us, UserIdOf, nextUser) && IdsBelow(rs, ReviewIdOf, nextReview)
  }

  /** Rows kept by a delete keep their ids under the counter. */
  lemma FilterKeepsIdsBelow<T(!new)>(s: seq<T>, keep: T -> bool, id: T -> nat, bound: nat)
    requires IdsBelow(s, id, bound)
    ensures IdsBelow(Filter(s, keep), id, bound)
  {
    var r := Filter(s, keep);
    FilterMembers(s, keep);
    forall i | 0 <= i < |r| ensures id(r[i]) < bound {
      assert r[i] in s;
    }
  }

  // Lookups the views run on the user table.
  function UserNamed(name: string): User -> bool { (u: User) => u.username == name }
  function UserWithEmail(email: string): User -> bool { (u: User) => u.email == email }
  function TitleWithId(tid: nat): Title -> bool { (t: Title) => t.id == tid }
  function UserWithNameAndEmail(name: string, email: string): User -> bool {
    (u: User) => u.username == name && u.email == email
  }

  /** Inserting a user whose id comes from the counter and whose username and
      email are both free keeps the store valid. */
  lemma InsertUserKeepsValid(us: seq<User>, cs: seq<Category>, gs: seq<Genre>, ts: seq<Title>,
                             rs: seq<Review>, ms: seq<Comment>, nu: nat, nr: nat, x: User)
    requires StoreInvariant(us, cs, gs, ts, rs, ms, nu, nr)
    requires x.id == nu
    requires forall i :: 0 <= i < |us| ==> us[i].username != x.username && us[i].email != x.email
    ensures StoreInvariant(us + [x], cs, gs, ts, rs, ms, nu + 1, nr)
  {
    AppendKeepsUnique(us, x, UserIdOf);
    AppendKeepsUnique(us, x, UsernameOf);
    AppendKeepsUnique(us, x, EmailOf);
    KeySetAppend(us, x, UserIdOf);
    var r := us + [x];
    forall i | 0 <= i < |r| ensures UserIdOf(r[i]) < nu + 1 {
      if i < |us| { assert r[i] == us[i]; }
    }
  }

  /** Rewriting a user row keeps the store valid when the id stays and the new
      username and email are not used by any other row. */
  lemma ReplaceUserKeepsValid(us: seq<User>, cs: seq<Category>, gs: seq<Genre>, ts: seq<Title>,
                              rs: seq<Review>, ms: seq<Comment>, nu: nat, nr: nat, k: nat, x: User)
    requires StoreInvariant(us, cs, gs, ts, rs, ms, nu, nr)
    requires k < |us| && x.id == us[k].id
    requires forall i :: 0 <= i < |us| && i != k ==> us[i].username != x.username && us[i].email != x.email
    ensures StoreInvariant(us[k := x], cs, gs, ts, rs, ms, nu, nr)
  {
    ReplaceKeepsUnique(us, k, x, UserIdOf);
    ReplaceKeepsUnique(us, k, x, UsernameOf);
    ReplaceKeepsUnique(us, k, x, EmailOf);
    KeySetReplace(us, k, x, UserIdOf);
  }

  /** Inserting a review whose id comes from the counter keeps the store valid
      when its score is in range, its author and title exist, and its author has
      not reviewed that title yet. */
  lemma InsertReviewKeepsValid(us: seq<User>, cs: seq<Category>, gs: seq<Genre>, ts: seq<Title>,
                               rs: seq<Review>, ms: seq<Comment>, nu: nat, nr: nat, x: Review)
    requires StoreInvariant(us, cs, gs, ts, rs, ms, nu, nr)
    requires x.id == nr && ScoreInRange(x.score)
    requires x.author in KeySet(us, UserIdOf) && x.title in KeySet(ts, TitleIdOf)
    requires forall i :: 0 <= i < |rs| ==> AuthorTitleOf(rs[i]) != AuthorTitleOf(x)
    ensures StoreInvariant(us, cs, gs, ts, rs + [x], ms, nu, nr + 1)
  {
    AppendKeepsUnique(rs, x, ReviewIdOf);
    AppendKeepsUnique(rs, x, AuthorTitleOf);
    KeySetAppend(rs, x, ReviewIdOf);
    var r := rs + [x];
    forall i | 0 <= i < |r|
      ensures ReviewIdOf(r[i]) < nr + 1 && ScoreInRange(r[i].score)
      ensures ReviewAuthorOf(r[i]) in KeySet(us, UserIdOf) && ReviewTitleOf(r[i]) in KeySet(ts, TitleIdOf)
    {
      if i < |rs| { assert r[i] == rs[i]; }
    }
  }
}
