/**
  `CommentService`: comments on an anime; the author may edit a comment,
  the author or an administrator may delete it, always through the anime
  the comment belongs to.
 */
module Comments {
  import opened Entities
  import opened Seqs
  import Catalog

  /**
    The comment table: generated ids are distinct and below the next one,
    and every stored content passed the non-empty constraint.
   */
  predicate ValidTable(rows: seq<Comment>, nextId: int)
  {
    && (forall i, j :: 0 <= i < j < |rows| ==> rows[i].id != rows[j].id)
    && (forall i :: 0 <= i < |rows| ==> rows[i].id < nextId && rows[i].content != "")
  }

  function HasId(id: int): Comment -> bool
  {
    (c: Comment) => c.id == id
  }

  function OnAnime(animeId: int): Comment -> bool
  {
    (c: Comment) => c.anime.id == animeId
  }

  /** `getCommentsByAnimeId` (`findByAnimeId`): the comments on the anime with that id, in storage order. */
  function CommentsOfAnime(rows: seq<Comment>, animeId: int): (r: seq<Comment>)
    ensures multiset(r) <= multiset(rows)
    ensures forall k :: 0 <= k < |r| ==> r[k].anime.id == animeId
  {
    FilterSubMultiset(rows, OnAnime(animeId));
    Filter(rows, OnAnime(animeId))
  }

  /** A comment is listed for the anime exactly when it is stored and belongs to that anime, and as often as it is stored. */
  lemma CommentsOfAnimeExactly(rows: seq<Comment>, animeId: int, c: Comment)
    ensures c in CommentsOfAnime(rows, animeId) <==> c in rows && c.anime.id == animeId
    ensures multiset(CommentsOfAnime(rows, animeId))[c] == if c.anime.id == animeId then multiset(rows)[c] else 0
  {
    FilterMembers(rows, OnAnime(animeId), c);
    FilterCount(rows, OnAnime(animeId), c);
  }

  /** The update rule: the comment belongs to the anime and was written by the caller. */
  predicate MayUpdate(c: Comment, animeId: int, username: string)
  {
    c.anime.id == animeId && c.user.username == username
  }

  /** The delete rule: the comment belongs to the anime, and the caller wrote it or is an administrator. */
  predicate MayDelete(c: Comment, animeId: int, username: string, role: string)
  {
    c.anime.id == animeId && (c.user.username == username || role == "ADMIN")
  }

  /** `getCommentByIdUserForUpdate`: the comment, if it exists and the update rule lets the caller at it. */
  function GetCommentByIdUserForUpdate(rows: seq<Comment>, animeId: int, commentId: int, username: string): (r: Result<Comment, Error>)
    ensures r == Failure(NotFound(CommentEntity)) <==> forall k :: 0 <= k < |rows| ==> rows[k].id != commentId
    ensures r.Failure? ==> r.error in {NotFound(CommentEntity), Unauthorized}
    ensures r.Success? ==> r.value in rows && r.value.id == commentId && MayUpdate(r.value, animeId, username)
  {
    match FirstIndex(rows, HasId(commentId))
    case None => Failure(NotFound(CommentEntity))
    case Some(i) =>
      if !MayUpdate(rows[i], animeId, username) then Failure(Unauthorized) else Success(rows[i])
  }

  /** `getCommentByIdUserForDelete`: the comment, if it exists and the delete rule lets the caller at it. */
  function GetCommentByIdUserForDelete(rows: seq<Comment>, animeId: int, commentId: int, username: string, role: string): (r: Result<Comment, Error>)
    ensures r == Failure(NotFound(CommentEntity)) <==> forall k :: 0 <= k < |rows| ==> rows[k].id != commentId
    ensures r.Failure? ==> r.error in {NotFound(CommentEntity), Unauthorized}
    ensures r.Success? ==> r.value in rows && r.value.id == commentId && MayDelete(r.value, animeId, username, role)
  {
    match FirstIndex(rows, HasId(commentId))
    case None => Failure(NotFound(CommentEntity))
    case Some(i) =>
      if !MayDelete(rows[i], animeId, username, role) then Failure(Unauthorized) else Success(rows[i])
  }

  /**
    With distinct ids, the update check passes exactly for the author of the
    stored comment on its own anime, and the delete check exactly for the
    author or an administrator on its own anime: a wrong anime is refused
    whatever the role.
   */
  lemma ChecksExact(rows: seq<Comment>, k: int, animeId: int, username: string, role: string)
    requires forall i, j :: 0 <= i < j < |rows| ==> rows[i].id != rows[j].id
    requires 0 <= k < |rows|
    ensures GetCommentByIdUserForUpdate(rows, animeId, rows[k].id, username) ==
              if MayUpdate(rows[k], animeId, username) then Success(rows[k]) else Failure(Unauthorized)
    ensures GetCommentByIdUserForDelete(rows, animeId, rows[k].id, username, role) ==
              if MayDelete(rows[k], animeId, username, role) then Success(rows[k]) else Failure(Unauthorized)
    ensures rows[k].anime.id != animeId ==> GetCommentByIdUserForDelete(rows, animeId, rows[k].id, username, role) == Failure(Unauthorized)
  {
    var f := FirstIndex(rows, HasId(rows[k].id));
    assert HasId(rows[k].id)(rows[k]);
    assert f == Some(k);
  }

  /** Whoever passes the update check passes the delete check too, whatever their role, and gets the same comment. */
  lemma UpdatePermissionImpliesDelete(rows: seq<Comment>, animeId: int, commentId: int, username: string, role: string)
    requires GetCommentByIdUserForUpdate(rows, animeId, commentId, username).Success?
    ensures GetCommentByIdUserForDelete(rows, animeId, commentId, username, role) ==
              GetCommentByIdUserForUpdate(rows, animeId, commentId, username)
  {
  }

  /** The anime test of `getCommentById` as intended: the comment's anime has that id. */
  predicate SameAnime(anime: Anime, animeId: int)
  {
    anime.id == animeId
  }

  /**
    The anime test as written: the comment's `Anime` object is compared with
    the `Long` id through `equals`, which no `Anime` equals.
   */
  predicate SameAnimeAsWritten(anime: Anime, animeId: int)
  {
    false
  }

  /** `getCommentById` as intended: the comment, if it exists and belongs to that anime. */
  function GetCommentById(rows: seq<Comment>, animeId: int, commentId: int): (r: Result<Comment, Error>)
    ensures r == Failure(NotFound(CommentEntity)) <==> forall k :: 0 <= k < |rows| ==> rows[k].id != commentId
    ensures r.Failure? ==> r.error in {NotFound(CommentEntity), Unauthorized}
    ensures r.Success? ==> r.value in rows && r.value.id == commentId && r.value.anime.id == animeId
  {
    match FirstIndex(rows, HasId(commentId))
    case None => Failure(NotFound(CommentEntity))
    case Some(i) => if !SameAnime(rows[i].anime, animeId) then Failure(Unauthorized) else Success(rows[i])
  }

  /**
    `getCommentById` as written: an unknown id is still NotFound, but no
    call ever returns a comment.
   */
  function GetCommentByIdAsWritten(rows: seq<Comment>, animeId: int, commentId: int): (r: Result<Comment, Error>)
    ensures r == Failure(NotFound(CommentEntity)) <==> forall k :: 0 <= k < |rows| ==> rows[k].id != commentId
    ensures r.Failure?
  {
    match FirstIndex(rows, HasId(commentId))
    case None => Failure(NotFound(CommentEntity))
    case Some(i) =>
      var c := rows[i];
      if !SameAnimeAsWritten(c.anime, animeId) then Failure(Unauthorized) else Success(c)
  }

  /**
    As written, `getCommentById` never returns a comment: an unknown id gives
    NotFound, as intended, and a found comment gives Unauthorized even when
    the intended check accepts it.
   */
  lemma GetCommentByIdAsWrittenNeverSucceeds(rows: seq<Comment>, animeId: int, commentId: int)
    ensures GetCommentByIdAsWritten(rows, animeId, commentId).Failure?
    ensures GetCommentById(rows, animeId, commentId) == Failure(NotFound(CommentEntity)) <==>
              GetCommentByIdAsWritten(rows, animeId, commentId) == Failure(NotFound(CommentEntity))
    ensures GetCommentById(rows, animeId, commentId).Success? ==>
              GetCommentByIdAsWritten(rows, animeId, commentId) == Failure(Unauthorized)
  {
  }

  /** A concrete witness: comment 5 on anime 2, looked up through anime 2, is refused as written and found as intended. */
  lemma CommentRefusedAsWritten()
    ensures var rows := [Comment(5, 0, "great", User(1, "alice", USER), Anime(2, "B", "", "", 0, 0, 12, 24, "TV", "finished", ""))];
            && GetCommentById(rows, 2, 5) == Success(rows[0])
            && GetCommentByIdAsWritten(rows, 2, 5) == Failure(Unauthorized)
  {
    var rows := [Comment(5, 0, "great", User(1, "alice", USER), Anime(2, "B", "", "", 0, 0, 12, 24, "TV", "finished", ""))];
    assert FirstIndex(rows, HasId(5)) == Some(0);
  }

  /** The comment repository as the service changes it: the stored rows and the next generated id. */
  class CommentService {
    var rows: seq<Comment>
    var nextId: int

    ghost predicate Valid()
      reads this
    {
      ValidTable(rows, nextId)
    }

    /** An empty repository: no rows yet, and generated ids start at 1. */
    constructor ()
      ensures Valid() && rows == [] && nextId == 1
    {
      rows := [];
      nextId := 1;
    }

    /**
      `addComment`: binds the comment to the caller, to the anime
      `getAnimeById` returns and to the current instant `now`, then saves it
      under the next generated id. The save is refused when the anime is
      unknown (null) or the content is empty.
     */
    method AddComment(catalog: seq<Anime>, user: User, animeId: int, content: string, now: int) returns (r: Result<Comment, Error>)
      requires Valid()
      modifies this
      ensures Valid()
      ensures Catalog.GetAnimeById(catalog, animeId).None? || content == "" ==>
                r == Failure(ConstraintViolation) && rows == old(rows) && nextId == old(nextId)
      ensures Catalog.GetAnimeById(catalog, animeId).Some? && content != "" ==>
                && r == Success(Comment(old(nextId), now, content, user, Catalog.GetAnimeById(catalog, animeId).value))
                && rows == old(rows) + [r.value]
                && nextId == old(nextId) + 1
    {
      var anime := Catalog.GetAnimeById(catalog, animeId);
      if anime.None? || content == "" {
        return Failure(ConstraintViolation);
      }
      var comment := Comment(nextId, now, content, user, anime.value);
      rows := rows + [comment];
      nextId := nextId + 1;
      r := Success(comment);
    }

    /**
      `updateComment`: after the update check, only the content of that
      comment changes; an empty content makes the save fail, which the
      service reports as a failed update.
     */
    method UpdateComment(animeId: int, commentId: int, content: string, username: string) returns (r: Result<Comment, Error>)
      requires Valid()
      modifies this
      ensures Valid() && nextId == old(nextId)
      ensures var check := GetCommentByIdUserForUpdate(old(rows), animeId, commentId, username);
              check.Failure? ==> r == Failure(check.error) && rows == old(rows)
      ensures var check := GetCommentByIdUserForUpdate(old(rows), animeId, commentId, username);
              check.Success? && content == "" ==> r == Failure(UpdateFailed) && rows == old(rows)
      ensures var check := GetCommentByIdUserForUpdate(old(rows), animeId, commentId, username);
              check.Success? && content != "" ==>
                var i := FirstIndex(old(rows), HasId(commentId)).value;
                && rows == old(rows)[i := old(rows)[i].(content := content)]
                && r == Success(rows[i])
    {
      var check := GetCommentByIdUserForUpdate(rows, animeId, commentId, username);
      if check.Failure? {
        return Failure(check.error);
      }
      if content == "" {
        return Failure(UpdateFailed);
      }
      var i := FirstIndex(rows, HasId(commentId)).value;
      var updated := rows[i].(content := content);
      rows := rows[i := updated];
      r := Success(updated);
    }

    /** `deleteComment`: after the delete check with the caller's role name, exactly that comment is removed. */
    method DeleteComment(animeId: int, commentId: int, user: User) returns (r: Outcome<Error>)
      requires Valid()
      modifies this
      ensures Valid() && nextId == old(nextId)
      ensures var check := GetCommentByIdUserForDelete(old(rows), animeId, commentId, user.username, RoleName(user.role));
              check.Failure? ==> r == Fail(check.error) && rows == old(rows)
      ensures var check := GetCommentByIdUserForDelete(old(rows), animeId, commentId, user.username, RoleName(user.role));
              check.Success? ==>
                var i := FirstIndex(old(rows), HasId(commentId)).value;
                && r == Pass
                && rows == old(rows)[..i] + old(rows)[i + 1..]
                && multiset(rows) == multiset(old(rows)) - multiset{check.value}
                && forall k :: 0 <= k < |rows| ==> rows[k].id != commentId
    {
      var check := GetCommentByIdUserForDelete(rows, animeId, commentId, user.username, RoleName(user.role));
      if check.Failure? {
        return Fail(check.error);
      }
      var i := FirstIndex(rows, HasId(commentId)).value;
      ghost var before := rows;
      rows := rows[..i] + rows[i + 1..];
      assert before == before[..i] + [before[i]] + before[i + 1..];
      forall k | 0 <= k < |rows|
        ensures rows[k].id != commentId
      {
        if k < i {
          assert rows[k] == before[k];
        } else {
          assert rows[k] == before[k + 1];
        }
      }
      r := Pass;
    }
  }
}
