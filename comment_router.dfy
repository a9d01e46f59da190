/** trpc/routers/comment.ts: a ticket's comments with their authors, and comment creation with
    its mention rows. */
module CommentRouter {
  import opened Wrappers
  import opened Schema
  import opened Rpc
  import opened Store
  import Seqs

  datatype Author = Author(id: string, name: string, image: Option<string>)

  function AuthorOf(u: User): Author {
    Author(u.id, u.name, u.image)
  }

  /** A row of `comment INNER JOIN user ON created_by = user.id`, with the selected fields. */
  datatype CommentView = CommentView(id: string, body: string, createdAt: nat, createdBy: Author)

  /** `eq(comment.ticketId, ticketId)`. */
  function OnTicket(ticketId: string): Comment -> bool {
    (c: Comment) => c.ticketId == ticketId
  }

  function ViewOf(c: Comment, u: User): CommentView {
    CommentView(c.id, c.body, c.createdAt, AuthorOf(u))
  }

  /** The comment shown with its author, when the author has a user row. */
  predicate ShowsComment(v: CommentView, c: Comment, users: seq<User>) {
    FindUser(users, c.createdBy).Some? && v == ViewOf(c, FindUser(users, c.createdBy).value)
  }

  /** The join with the authors, row by row in storage order: every row shows a comment with its
      author; a comment whose author has no user row has no partner and drops out, and when every
      author exists no comment is lost. */
  function JoinAuthors(comments: seq<Comment>, users: seq<User>): (r: seq<CommentView>)
    ensures |r| <= |comments|
    ensures forall v :: v in r ==> exists c :: c in comments && ShowsComment(v, c, users)
    ensures forall c :: c in comments && FindUser(users, c.createdBy).Some? ==>
              ViewOf(c, FindUser(users, c.createdBy).value) in r
    ensures (forall c :: c in comments ==> FindUser(users, c.createdBy).Some?) ==> |r| == |comments|
    decreases |comments|
  {
    if comments == [] then []
    else
      var c := comments[0];
      var rest := JoinAuthors(comments[1..], users);
      assert comments == [c] + comments[1..];
      match FindUser(users, c.createdBy)
      case Some(u) =>
        assert ShowsComment(ViewOf(c, u), c, users);
        [ViewOf(c, u)] + rest
      case None => rest
  }

  /** comment.list. */
  function List(db: Db, ticketId: string): seq<CommentView>
    reads db
  {
    JoinAuthors(Seqs.Filter(db.comments, OnTicket(ticketId)), db.users)
  }

  /** The listing holds exactly the ticket's comments whose authors exist, each with its author. */
  lemma ListIsTicketComments(db: Db, ticketId: string)
    ensures forall v :: v in List(db, ticketId) ==>
              exists c :: c in db.comments && c.ticketId == ticketId && ShowsComment(v, c, db.users)
    ensures forall c :: c in db.comments && c.ticketId == ticketId && FindUser(db.users, c.createdBy).Some? ==>
              ViewOf(c, FindUser(db.users, c.createdBy).value) in List(db, ticketId)
    ensures (forall c :: c in db.comments ==> FindUser(db.users, c.createdBy).Some?) ==>
              |List(db, ticketId)| == |Seqs.Filter(db.comments, OnTicket(ticketId))|
  {
    var mine := Seqs.Filter(db.comments, OnTicket(ticketId));
    forall v | v in List(db, ticketId)
      ensures exists c :: c in db.comments && c.ticketId == ticketId && ShowsComment(v, c, db.users)
    {
      var c :| c in mine && ShowsComment(v, c, db.users);
    }
  }

  datatype CreateInput = CreateInput(ticketId: string, body: string, mentionedUserIds: Option<seq<string>>)

  /** One mention row per id, in the order given (duplicates included). */
  function MentionRows(commentId: string, userIds: seq<string>): (r: seq<CommentMention>)
    ensures |r| == |userIds|
    ensures forall i :: 0 <= i < |r| ==> r[i] == CommentMention(commentId, userIds[i])
  {
    seq(|userIds|, i requires 0 <= i < |userIds| => CommentMention(commentId, userIds[i]))
  }

  /** comment.create: a signed-in caller stores one comment authored by them under the fresh id,
      then one mention row per listed user, skipping the insert when the list is empty or
      absent; the answer is the new id. */
  method Create(db: Db, caller: Caller, input: CreateInput, commentId: string, now: nat) returns (r: Result<string>)
    modifies db`comments, db`commentMentions
    ensures !HasUserId(caller) ==> r == Err(Unauthorized) && unchanged(db)
    ensures HasUserId(caller) ==>
              r == Ok(commentId) &&
              db.comments == old(db.comments) + [Comment(commentId, input.ticketId, input.body, caller.value, now)] &&
              db.commentMentions == old(db.commentMentions) + MentionRows(commentId, input.mentionedUserIds.GetOr([]))
  {
    if !HasUserId(caller) {
      return Err(Unauthorized);
    }
    db.InsertComment(Comment(commentId, input.ticketId, input.body, caller.value, now));
    var ids := input.mentionedUserIds.GetOr([]);
    if |ids| > 0 {
      var _ := db.InsertCommentMentions(MentionRows(commentId, ids));
    }
    r := Ok(commentId);
  }

  /** The mention rows of one comment. */
  function MentionsOf(mentions: seq<CommentMention>, commentId: string): seq<string>
    decreases |mentions|
  {
    if mentions == [] then []
    else (if mentions[0].commentId == commentId then [mentions[0].userId] else [])
           + MentionsOf(mentions[1..], commentId)
  }

  lemma {:induction false} MentionsOfAppend(a: seq<CommentMention>, b: seq<CommentMention>, commentId: string)
    ensures MentionsOf(a + b, commentId) == MentionsOf(a, commentId) + MentionsOf(b, commentId)
    decreases |a|
  {
    if a == [] {
      assert a + b == b;
    } else {
      assert (a + b)[1..] == a[1..] + b;
      MentionsOfAppend(a[1..], b, commentId);
    }
  }

  lemma {:induction false} MentionsOfRows(commentId: string, userIds: seq<string>)
    ensures MentionsOf(MentionRows(commentId, userIds), commentId) == userIds
    decreases |userIds|
  {
    if userIds != [] {
      var rows := MentionRows(commentId, userIds);
      assert rows[1..] == MentionRows(commentId, userIds[1..]);
      MentionsOfRows(commentId, userIds[1..]);
    }
  }

  /** After creating a comment under a fresh id, its mentions read back as exactly the ids the
      client sent, in order. */
  lemma CreatedMentionsReadBack(before: seq<CommentMention>, commentId: string, userIds: seq<string>)
    requires forall m :: m in before ==> m.commentId != commentId
    ensures MentionsOf(before + MentionRows(commentId, userIds), commentId) == userIds
  {
    MentionsOfAppend(before, MentionRows(commentId, userIds), commentId);
    NoMentionsOfFreshComment(before, commentId);
    MentionsOfRows(commentId, userIds);
  }

  lemma {:induction false} NoMentionsOfFreshComment(mentions: seq<CommentMention>, commentId: string)
    requires forall m :: m in mentions ==> m.commentId != commentId
    ensures MentionsOf(mentions, commentId) == []
    decreases |mentions|
  {
    if mentions != [] {
      assert mentions[0] in mentions;
      assert forall m :: m in mentions[1..] ==> m in mentions;
      NoMentionsOfFreshComment(mentions[1..], commentId);
    }
  }
}
