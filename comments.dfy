/// The comment handlers of internal/handlers/handlers.go: `AddComment`, `DeleteComment`
/// and `UpdateComment`. A rating outside 1..5 is stored as 3, and a comment is deleted or
/// rewritten only by the user who wrote it.
module Comments {
  import opened Tables
  import opened Schema
  import opened Records
  import opened Storage
  import opened Migration

  /** The `rating` form value: `strconv.Atoi` yields 0 for a value that does not parse
      (`q` is None), and anything outside 1..5 becomes 3. */
  function NormalizeRating(q: Option<int>): (r: int)
    ensures 1 <= r <= 5
    ensures q.Some? && 1 <= q.value <= 5 ==> r == q.value
    ensures !(q.Some? && 1 <= q.value <= 5) ==> r == 3
  {
    var v := if q.Some? then q.value else 0;
    if v < 1 || v > 5 then 3 else v
  }

  /** Which single statement of a comment handler fails, if any: the owner SELECT of
      DeleteComment and UpdateComment, or the INSERT, DELETE or UPDATE that writes.
      AddComment runs no owner query, so for it `OwnerQueryFails` changes nothing. */
  datatype CommentFault = Unfailing | OwnerQueryFails | WriteFails

  /** The comments table after a handler, and its answer. */
  datatype CommentOutcome = CommentOutcome(resp: Response, comments: Table<Comment>)

  /** `WHERE id = ?` */
  function CommentId(cid: int): Row<Comment> -> bool {
    (r: Row<Comment>) => r.id == cid
  }

  /** `SET rating = ?, text = ?, created_at = ?` */
  function Rewrite(rating: int, text: string, now: string): Comment -> Comment {
    (c: Comment) => c.(rating := rating, text := text, createdAt := now)
  }

  /** `SELECT user_id FROM comments WHERE id = ?` (DeleteComment) or `SELECT user_id,
      game_id ...` (UpdateComment), naming the columns `cols`: the comment, if the query
      runs, finds the row and every id it selects is not NULL (a NULL does not scan into
      an int). */
  function OwnedComment(s: Catalog, rows: seq<Row<Comment>>, cid: int, cols: set<string>): Option<Comment> {
    if !Accepts(s, "comments", cols) then None
    else
      match Lookup(rows, cid)
      case None => None
      case Some(c) => if c.userId.Some? && ("game_id" in cols ==> c.gameId.Some?) then Some(c) else None
  }

  /** The owner SELECT as the handler sees it: nothing when the query fails. */
  function OwnerQuery(s: Catalog, rows: seq<Row<Comment>>, cid: int, cols: set<string>, fault: CommentFault): Option<Comment> {
    if fault == OwnerQueryFails then None else OwnedComment(s, rows, cid, cols)
  }

  /** AddComment. `gameArg` is the `id` form value, `ratingArg` the `rating` value
      (None when empty or not an integer), `now` the timestamp the handler formats. */
  function AddCommentSpec(s: Catalog, t: Table<Comment>, uid: int, post: bool, gameArg: Option<int>,
                          ratingArg: Option<int>, text: string, now: string, fault: CommentFault): CommentOutcome
    requires Tables.Valid(t)
  {
    if uid == 0 then CommentOutcome(SeeOther(LoginPage), t)
    else if !post || gameArg.None? then CommentOutcome(SeeOther(HomePage), t)
    else
      var c := Comment(Some(gameArg.value), Some(uid), NormalizeRating(ratingArg), text, now);
      // an INSERT that fails is logged and ignored
      var runs := fault != WriteFails && Accepts(s, "comments", {"game_id", "user_id", "rating", "text", "created_at"});
      var t' := if runs then Insert(t, c) else t;
      CommentOutcome(SeeOther(GamePage(gameArg.value)), t')
  }

  /** DeleteComment. `cidArg` is the `comment_id` value, `gidRaw` the `game_id` value as
      sent, which the redirect copies unparsed. */
  function DeleteCommentSpec(s: Catalog, t: Table<Comment>, uid: int, post: bool, cidArg: Option<int>, gidRaw: string,
                             fault: CommentFault): CommentOutcome
    requires Tables.Valid(t)
  {
    if uid == 0 then CommentOutcome(SeeOther(LoginPage), t)
    else if !post || cidArg.None? then CommentOutcome(SeeOther(HomePage), t)
    else
      var owner := OwnerQuery(s, t.rows, cidArg.value, {"id", "user_id"}, fault);
      if owner.None? || owner.value.userId != Some(uid) then CommentOutcome(SeeOther(HomePage), t)
      else
        // a DELETE that fails is logged and ignored
        CommentOutcome(if gidRaw != "" then SeeOther(GamePageRaw(gidRaw)) else SeeOther(HomePage),
                       if fault == WriteFails then t else Delete(t, CommentId(cidArg.value)))
  }

  /** UpdateComment. */
  function UpdateCommentSpec(s: Catalog, t: Table<Comment>, uid: int, post: bool, cidArg: Option<int>,
                             ratingArg: Option<int>, text: string, now: string, fault: CommentFault): CommentOutcome
    requires Tables.Valid(t)
  {
    if uid == 0 then CommentOutcome(SeeOther(LoginPage), t)
    else if !post || cidArg.None? then CommentOutcome(SeeOther(HomePage), t)
    else
      var owner := OwnerQuery(s, t.rows, cidArg.value, {"id", "user_id", "game_id"}, fault);
      if owner.None? || owner.value.userId != Some(uid) || owner.value.gameId.None? then CommentOutcome(SeeOther(HomePage), t)
      else
        var rows := Change(t.rows, CommentId(cidArg.value), Rewrite(NormalizeRating(ratingArg), text, now));
        // an UPDATE that fails is logged and ignored
        var runs := fault != WriteFails && Accepts(s, "comments", {"rating", "text", "created_at"});
        var t' := if runs then Table(rows, t.lastId) else t;
        CommentOutcome(SeeOther(GamePage(owner.value.gameId.value)), t')
  }

  method AddComment(db: Database, uid: int, post: bool, gameArg: Option<int>, ratingArg: Option<int>,
                    text: string, now: string, fault: CommentFault, failing: set<Ddl>)
    returns (resp: Response)
    requires db.Valid()
    modifies db`schema, db`comments
    ensures db.Valid()
    ensures db.schema == EnsureSchemaSpec(old(db.schema), failing)
    ensures CommentOutcome(resp, db.comments) == AddCommentSpec(db.schema, old(db.comments), uid, post, gameArg, ratingArg, text, now, fault)
  {
    EnsureSchema(db, failing);
    if uid == 0 {
      return SeeOther(LoginPage);
    }
    if !post || gameArg.None? {
      return SeeOther(HomePage);
    }
    var gameId := gameArg.value;
    var rating := NormalizeRating(ratingArg);
    if fault != WriteFails && Accepts(db.schema, "comments", {"game_id", "user_id", "rating", "text", "created_at"}) {
      db.comments := Insert(db.comments, Comment(Some(gameId), Some(uid), rating, text, now));
    }
    return SeeOther(GamePage(gameId));
  }

  method DeleteComment(db: Database, uid: int, post: bool, cidArg: Option<int>, gidRaw: string,
                       fault: CommentFault, failing: set<Ddl>)
    returns (resp: Response)
    requires db.Valid()
    modifies db`schema, db`comments
    ensures db.Valid()
    ensures db.schema == EnsureSchemaSpec(old(db.schema), failing)
    ensures CommentOutcome(resp, db.comments) == DeleteCommentSpec(db.schema, old(db.comments), uid, post, cidArg, gidRaw, fault)
  {
    EnsureSchema(db, failing);
    if uid == 0 {
      return SeeOther(LoginPage);
    }
    if !post || cidArg.None? {
      return SeeOther(HomePage);
    }
    var cid := cidArg.value;
    var owner := OwnerQuery(db.schema, db.comments.rows, cid, {"id", "user_id"}, fault);
    if owner.None? || owner.value.userId != Some(uid) {
      return SeeOther(HomePage);
    }
    if fault != WriteFails {
      db.comments := Delete(db.comments, CommentId(cid));
    }
    if gidRaw != "" {
      return SeeOther(GamePageRaw(gidRaw));
    }
    return SeeOther(HomePage);
  }

  method UpdateComment(db: Database, uid: int, post: bool, cidArg: Option<int>, ratingArg: Option<int>,
                       text: string, now: string, fault: CommentFault, failing: set<Ddl>)
    returns (resp: Response)
    requires db.Valid()
    modifies db`schema, db`comments
    ensures db.Valid()
    ensures db.schema == EnsureSchemaSpec(old(db.schema), failing)
    ensures CommentOutcome(resp, db.comments) == UpdateCommentSpec(db.schema, old(db.comments), uid, post, cidArg, ratingArg, text, now, fault)
  {
    EnsureSchema(db, failing);
    if uid == 0 {
      return SeeOther(LoginPage);
    }
    if !post || cidArg.None? {
      return SeeOther(HomePage);
    }
    var cid := cidArg.value;
    var rating := NormalizeRating(ratingArg);
    var owner := OwnerQuery(db.schema, db.comments.rows, cid, {"id", "user_id", "game_id"}, fault);
    if owner.None? || owner.value.userId != Some(uid) || owner.value.gameId.None? {
      return SeeOther(HomePage);
    }
    if fault != WriteFails && Accepts(db.schema, "comments", {"rating", "text", "created_at"}) {
      db.comments := Table(Change(db.comments.rows, CommentId(cid), Rewrite(rating, text, now)), db.comments.lastId);
    }
    return SeeOther(GamePage(owner.value.gameId.value));
  }

  /** Every stored rating is in 1..5. */
  ghost predicate RatingsInRange(rows: seq<Row<Comment>>) {
    forall i :: 0 <= i < |rows| ==> 1 <= rows[i].val.rating <= 5
  }

  /** AddComment keeps every stored rating in 1..5. */
  lemma AddKeepsRatings(s: Catalog, t: Table<Comment>, uid: int, post: bool, gameArg: Option<int>,
                        ratingArg: Option<int>, text: string, now: string, fault: CommentFault)
    requires Tables.Valid(t) && RatingsInRange(t.rows)
    ensures RatingsInRange(AddCommentSpec(s, t, uid, post, gameArg, ratingArg, text, now, fault).comments.rows)
  {
  }

  /** DeleteComment keeps every stored rating in 1..5. */
  lemma DeleteKeepsRatings(s: Catalog, t: Table<Comment>, uid: int, post: bool, cidArg: Option<int>, gidRaw: string,
                           fault: CommentFault)
    requires Tables.Valid(t) && RatingsInRange(t.rows)
    ensures RatingsInRange(DeleteCommentSpec(s, t, uid, post, cidArg, gidRaw, fault).comments.rows)
  {
    var d := DeleteCommentSpec(s, t, uid, post, cidArg, gidRaw, fault).comments.rows;
    forall i | 0 <= i < |d| ensures 1 <= d[i].val.rating <= 5 {
      var j :| 0 <= j < |t.rows| && t.rows[j] == d[i];
    }
  }

  /** UpdateComment keeps every stored rating in 1..5. */
  lemma UpdateKeepsRatings(s: Catalog, t: Table<Comment>, uid: int, post: bool, cidArg: Option<int>,
                           ratingArg: Option<int>, text: string, now: string, fault: CommentFault)
    requires Tables.Valid(t) && RatingsInRange(t.rows)
    ensures RatingsInRange(UpdateCommentSpec(s, t, uid, post, cidArg, ratingArg, text, now, fault).comments.rows)
  {
  }

  /** The owner check: the comment exists with the caller as its author, and every id the
      query selects is set. */
  lemma OwnedCommentIsCallers(s: Catalog, t: Table<Comment>, uid: int, cid: int, cols: set<string>)
    requires Tables.Valid(t)
    ensures OwnedComment(s, t.rows, cid, cols).Some? && OwnedComment(s, t.rows, cid, cols).value.userId == Some(uid) <==>
      Accepts(s, "comments", cols)
      && exists i :: 0 <= i < |t.rows| && t.rows[i].id == cid && t.rows[i].val.userId == Some(uid)
           && ("game_id" in cols ==> t.rows[i].val.gameId.Some?)
  {
    if Accepts(s, "comments", cols) && Lookup(t.rows, cid).Some? {
      var i :| 0 <= i < |t.rows| && t.rows[i].id == cid;
      assert Lookup(t.rows, cid) == Some(t.rows[i].val);
    }
  }

  /** DeleteComment removes at most the one comment named, and only when the caller wrote
      it; every other comment is kept. */
  lemma DeleteCommentOwnerOnly(s: Catalog, t: Table<Comment>, uid: int, post: bool, cidArg: Option<int>, gidRaw: string,
                               fault: CommentFault)
    requires Tables.Valid(t)
    ensures var r := DeleteCommentSpec(s, t, uid, post, cidArg, gidRaw, fault).comments;
      && |t.rows| - 1 <= |r.rows| <= |t.rows|
      && (forall i :: 0 <= i < |t.rows| && (cidArg.None? || t.rows[i].id != cidArg.value) ==> t.rows[i] in r.rows)
      && (forall i :: 0 <= i < |t.rows| && t.rows[i].val.userId != Some(uid) ==> t.rows[i] in r.rows)
  {
    var r := DeleteCommentSpec(s, t, uid, post, cidArg, gidRaw, fault).comments;
    if r != t {
      var cid := cidArg.value;
      KeepOneId(t.rows, cid, CommentId(cid));
      OwnedCommentIsCallers(s, t, uid, cid, {"id", "user_id"});
      var k :| 0 <= k < |t.rows| && t.rows[k].id == cid && t.rows[k].val.userId == Some(uid);
      assert forall i :: 0 <= i < |t.rows| && t.rows[i].id == cid ==> i == k;
    }
  }

  /** UpdateComment rewrites at most the one comment named, and only when the caller wrote
      it; that comment keeps its game and author, and every other comment is unchanged. */
  lemma UpdateCommentOwnerOnly(s: Catalog, t: Table<Comment>, uid: int, post: bool, cidArg: Option<int>,
                               ratingArg: Option<int>, text: string, now: string, fault: CommentFault)
    requires Tables.Valid(t)
    ensures var r := UpdateCommentSpec(s, t, uid, post, cidArg, ratingArg, text, now, fault).comments;
      && r.lastId == t.lastId && |r.rows| == |t.rows|
      && (forall i :: 0 <= i < |t.rows| && (cidArg.None? || t.rows[i].id != cidArg.value) ==> r.rows[i] == t.rows[i])
      && (forall i :: 0 <= i < |t.rows| && t.rows[i].val.userId != Some(uid) ==> r.rows[i] == t.rows[i])
      && (forall i :: 0 <= i < |t.rows| ==>
            r.rows[i].id == t.rows[i].id && r.rows[i].val.gameId == t.rows[i].val.gameId
            && r.rows[i].val.userId == t.rows[i].val.userId)
  {
    var r := UpdateCommentSpec(s, t, uid, post, cidArg, ratingArg, text, now, fault).comments;
    if r != t {
      var cid := cidArg.value;
      OwnedCommentIsCallers(s, t, uid, cid, {"id", "user_id", "game_id"});
      var k :| 0 <= k < |t.rows| && t.rows[k].id == cid && t.rows[k].val.userId == Some(uid);
      assert forall i :: 0 <= i < |t.rows| && t.rows[i].id == cid ==> i == k;
    }
  }

  /** When the owner query fails, DeleteComment and UpdateComment send a signed-in POST home
      and change no comment. */
  lemma OwnerQueryFailureChangesNothing(s: Catalog, t: Table<Comment>, uid: int, post: bool, cidArg: Option<int>,
                                        gidRaw: string, ratingArg: Option<int>, text: string, now: string)
    requires Tables.Valid(t)
    ensures DeleteCommentSpec(s, t, uid, post, cidArg, gidRaw, OwnerQueryFails).comments == t
    ensures UpdateCommentSpec(s, t, uid, post, cidArg, ratingArg, text, now, OwnerQueryFails).comments == t
    ensures uid != 0 && post && cidArg.Some? ==>
      && DeleteCommentSpec(s, t, uid, post, cidArg, gidRaw, OwnerQueryFails).resp == SeeOther(HomePage)
      && UpdateCommentSpec(s, t, uid, post, cidArg, ratingArg, text, now, OwnerQueryFails).resp == SeeOther(HomePage)
  {
  }

  /** AddComment adds at most one comment, the caller's, on the game named, with the
      rating brought into 1..5; nothing else changes. */
  lemma AddCommentAppends(s: Catalog, t: Table<Comment>, uid: int, post: bool, gameArg: Option<int>,
                          ratingArg: Option<int>, text: string, now: string, fault: CommentFault)
    requires Tables.Valid(t)
    ensures var r := AddCommentSpec(s, t, uid, post, gameArg, ratingArg, text, now, fault).comments;
      && t.rows <= r.rows && |r.rows| <= |t.rows| + 1
      && (|r.rows| == |t.rows| + 1 ==>
            uid != 0 && post && gameArg.Some?
            && r.rows[|t.rows|].val.userId == Some(uid) && r.rows[|t.rows|].val.gameId == Some(gameArg.value)
            && 1 <= r.rows[|t.rows|].val.rating <= 5)
  {
  }
}
