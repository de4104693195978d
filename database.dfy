/** The database behind the service: one table per model, updated in place by
    the on_delete cascades and by the views. */
module Database {
  import opened Common
  import opened Models

  /** What `get_or_create` did: found row `index`, created row `index`, or hit a
      unique column. */
  datatype GetOrCreate = Found(index: nat) | Created(index: nat) | IntegrityError

  /** The tables the service keeps, updated in place by deletes and by the
      views. Review ids and user ids come from per-table counters, as the
      database's auto-increment keys do. */
  class Store {
    var users: seq<User>
    var categories: seq<Category>
    var genres: seq<Genre>
    var titles: seq<Title>
    var reviews: seq<Review>
    var comments: seq<Comment>
    var nextUserId: nat
    var nextReviewId: nat

    ghost predicate Valid()
      reads this
    {
      StoreInvariant(users, categories, genres, titles, reviews, comments, nextUserId, nextReviewId)
    }

    constructor ()
      ensures Valid()
      ensures users == [] && categories == [] && genres == [] && titles == []
      ensures reviews == [] && comments == []
    {
      users, categories, genres, titles, reviews, comments := [], [], [], [], [], [];
      nextUserId, nextReviewId := 0, 0;
    }

    /** Deleting a category: its titles keep existing with a null category. */
    method DeleteCategory(cid: nat)
      requires Valid()
      modifies this
      ensures Valid()
      ensures categories == Filter(old(categories), CategoryOtherThan(cid))
      ensures titles == UnlinkCategory(old(titles), cid)
      ensures users == old(users) && genres == old(genres)
      ensures reviews == old(reviews) && comments == old(comments)
      ensures nextUserId == old(nextUserId) && nextReviewId == old(nextReviewId)
    {
      DeleteCategoryKeepsValid(users, categories, genres, titles, reviews, comments, cid, nextUserId, nextReviewId);
      categories := Filter(categories, CategoryOtherThan(cid));
      titles := UnlinkCategory(titles, cid);
    }

    /** Deleting a genre: its links to titles go, the titles stay. */
    method DeleteGenre(gid: nat)
      requires Valid()
      modifies this
      ensures Valid()
      ensures genres == Filter(old(genres), GenreOtherThan(gid))
      ensures titles == UnlinkGenre(old(titles), gid)
      ensures users == old(users) && categories == old(categories)
      ensures reviews == old(reviews) && comments == old(comments)
      ensures nextUserId == old(nextUserId) && nextReviewId == old(nextReviewId)
    {
      DeleteGenreKeepsValid(users, categories, genres, titles, reviews, comments, gid, nextUserId, nextReviewId);
      genres := Filter(genres, GenreOtherThan(gid));
      titles := UnlinkGenre(titles, gid);
    }

    /** Deleting a title cascades to its reviews and on to their comments. */
    method DeleteTitle(tid: nat)
      requires Valid()
      modifies this
      ensures Valid()
      ensures titles == Filter(old(titles), TitleOtherThan(tid))
      ensures reviews == Filter(old(reviews), ReviewNotOnTitle(tid))
      ensures comments == Filter(old(comments),
                                 CommentSurvives({}, KeySet(Filter(old(reviews), ReviewOnTitle(tid)), ReviewIdOf)))
      ensures users == old(users) && categories == old(categories) && genres == old(genres)
      ensures nextUserId == old(nextUserId) && nextReviewId == old(nextReviewId)
    {
      DeleteTitleKeepsValid(users, categories, genres, titles, reviews, comments, tid, nextUserId, nextReviewId);
      titles, reviews, comments :=
        Filter(titles, TitleOtherThan(tid)),
        Filter(reviews, ReviewNotOnTitle(tid)),
        Filter(comments, CommentSurvives({}, KeySet(Filter(reviews, ReviewOnTitle(tid)), ReviewIdOf)));
    }

    /** Deleting a review cascades to its comments. */
    method DeleteReview(rid: nat)
      requires Valid()
      modifies this
      ensures Valid()
      ensures reviews == Filter(old(reviews), ReviewOtherThan(rid))
      ensures comments == Filter(old(comments),
                                 CommentSurvives({}, KeySet(Filter(old(reviews), ReviewWithId(rid)), ReviewIdOf)))
      ensures users == old(users) && categories == old(categories) && genres == old(genres)
      ensures titles == old(titles)
      ensures nextUserId == old(nextUserId) && nextReviewId == old(nextReviewId)
    {
      DeleteReviewKeepsValid(users, categories, genres, titles, reviews, comments, rid, nextUserId, nextReviewId);
      reviews, comments :=
        Filter(reviews, ReviewOtherThan(rid)),
        Filter(comments, CommentSurvives({}, KeySet(Filter(reviews, ReviewWithId(rid)), ReviewIdOf)));
    }

    /** Deleting a user cascades to the user's reviews, to the user's comments
        and to the comments under the deleted reviews. */
    method DeleteUser(uid: nat)
      requires Valid()
      modifies this
      ensures Valid()
      ensures users == Filter(old(users), UserOtherThan(uid))
      ensures reviews == Filter(old(reviews), ReviewNotBy(uid))
      ensures comments == Filter(old(comments),
                                 CommentSurvives({uid}, KeySet(Filter(old(reviews), ReviewBy(uid)), ReviewIdOf)))
      ensures categories == old(categories) && genres == old(genres) && titles == old(titles)
      ensures nextUserId == old(nextUserId) && nextReviewId == old(nextReviewId)
    {
      DeleteUserKeepsValid(users, categories, genres, titles, reviews, comments, uid, nextUserId, nextReviewId);
      users, reviews, comments :=
        Filter(users, UserOtherThan(uid)),
        Filter(reviews, ReviewNotBy(uid)),
        Filter(comments, CommentSurvives({uid}, KeySet(Filter(reviews, ReviewBy(uid)), ReviewIdOf)));
    }

    /** `create_user` (and the insert half of `get_or_create`): a new row with
        default role and code, or an integrity error when the username or the
        email is already taken. */
    method CreateUser(username: string, email: string) returns (r: Option<nat>)
      requires Valid()
      modifies this
      ensures Valid()
      ensures r.None? <==> exists i :: 0 <= i < |old(users)| && (old(users)[i].username == username || old(users)[i].email == email)
      ensures r.None? ==> users == old(users) && nextUserId == old(nextUserId)
      ensures r.Some? ==> r.value == |old(users)| && users == old(users) + [NewUser(old(nextUserId), username, email)]
      ensures r.Some? ==> nextUserId == old(nextUserId) + 1
      ensures categories == old(categories) && genres == old(genres) && titles == old(titles)
      ensures reviews == old(reviews) && comments == old(comments) && nextReviewId == old(nextReviewId)
    {
      if FirstIndex(users, UserNamed(username)).Some? || FirstIndex(users, UserWithEmail(email)).Some? {
        return None;
      }
      var u := NewUser(nextUserId, username, email);
      InsertUserKeepsValid(users, categories, genres, titles, reviews, comments, nextUserId, nextReviewId, u);
      users, nextUserId := users + [u], nextUserId + 1;
      r := Some(|users| - 1);
    }

    /** `get_or_create(username=..., email=...)`: the row matching both columns,
        else a new row, else an integrity error. */
    method GetOrCreateUser(username: string, email: string) returns (r: GetOrCreate)
      requires Valid()
      modifies this
      ensures Valid()
      ensures r.Found? <==> exists i :: 0 <= i < |old(users)| && old(users)[i].username == username && old(users)[i].email == email
      ensures r.Found? ==> FirstIndex(old(users), UserWithNameAndEmail(username, email)) == Some(r.index)
      ensures r.Created? ==> r.index == |old(users)| && users == old(users) + [NewUser(old(nextUserId), username, email)]
      ensures r.Created? ==> nextUserId == old(nextUserId) + 1
      ensures !r.Found? ==> (r.IntegrityError? <==>
        FirstIndex(old(users), UserNamed(username)).Some? || FirstIndex(old(users), UserWithEmail(email)).Some?)
      ensures !r.Created? ==> users == old(users) && nextUserId == old(nextUserId)
      ensures categories == old(categories) && genres == old(genres) && titles == old(titles)
      ensures reviews == old(reviews) && comments == old(comments) && nextReviewId == old(nextReviewId)
    {
      var found := FirstIndex(users, UserWithNameAndEmail(username, email));
      if found.Some? {
        return Found(found.value);
      }
      var created := CreateUser(username, email);
      if created.Some? {
        r := Created(created.value);
      } else {
        r := IntegrityError;
      }
    }

    /** `user.confirmation_code = code; user.save()` on row `k`. */
    method SaveConfirmationCode(k: nat, code: string)
      requires Valid() && k < |users|
      modifies this
      ensures Valid()
      ensures users == old(users)[k := old(users)[k].(confirmationCode := Some(code))]
      ensures categories == old(categories) && genres == old(genres) && titles == old(titles)
      ensures reviews == old(reviews) && comments == old(comments)
      ensures nextUserId == old(nextUserId) && nextReviewId == old(nextReviewId)
    {
      var u := users[k].(confirmationCode := Some(code));
      ReplaceUserKeepsValid(users, categories, genres, titles, reviews, comments, nextUserId, nextReviewId, k, u);
      users := users[k := u];
    }

    /** Saves row `k` as `u`: the same id, and no other row holds its username or email. */
    method SaveUser(k: nat, u: User)
      requires Valid() && k < |users| && u.id == users[k].id
      requires forall i :: 0 <= i < |users| && i != k ==> users[i].username != u.username && users[i].email != u.email
      modifies this
      ensures Valid()
      ensures users == old(users)[k := u]
      ensures categories == old(categories) && genres == old(genres) && titles == old(titles)
      ensures reviews == old(reviews) && comments == old(comments)
      ensures nextUserId == old(nextUserId) && nextReviewId == old(nextReviewId)
    {
      ReplaceUserKeepsValid(users, categories, genres, titles, reviews, comments, nextUserId, nextReviewId, k, u);
      users := users[k := u];
    }

    /** Saves a new review; the database's unique constraint and foreign keys
        are the preconditions. */
    method InsertReview(author: nat, title: nat, text: string, score: int) returns (r: Review)
      requires Valid() && ScoreInRange(score)
      requires author in KeySet(users, UserIdOf) && title in KeySet(titles, TitleIdOf)
      requires forall i :: 0 <= i < |reviews| ==> AuthorTitleOf(reviews[i]) != (author, title)
      modifies this
      ensures Valid()
      ensures r == Review(old(nextReviewId), author, title, text, score)
      ensures reviews == old(reviews) + [r] && nextReviewId == old(nextReviewId) + 1
      ensures users == old(users) && categories == old(categories) && genres == old(genres)
      ensures titles == old(titles) && comments == old(comments) && nextUserId == old(nextUserId)
    {
      r := Review(nextReviewId, author, title, text, score);
      InsertReviewKeepsValid(users, categories, genres, titles, reviews, comments, nextUserId, nextReviewId, r);
      reviews, nextReviewId := reviews + [r], nextReviewId + 1;
    }
  }
}
