/** trpc/routers/notification.ts: the caller's notifications, newest first, and marking one read. */
module NotificationRouter {
  import opened Wrappers
  import opened Schema
  import opened Rpc
  import opened Store
  import Seqs

  /** The selected fields of a notification row. */
  datatype NotificationView = NotificationView(
    id: string, body: string, isRead: bool, kind: string, ticketId: string, commentId: Option<string>, createdAt: nat)

  function ViewOf(n: Notification): NotificationView {
    NotificationView(n.id, n.body, n.isRead, n.kind, n.ticketId, n.commentId, n.createdAt)
  }

  function For(userId: string): Notification -> bool {
    (n: Notification) => n.userId == userId
  }

  /** `desc(notification.createdAt)`. */
  function NewerFirst(): (Notification, Notification) -> bool {
    (a: Notification, b: Notification) => a.createdAt >= b.createdAt
  }

  function Views(ns: seq<Notification>): (r: seq<NotificationView>)
    ensures |r| == |ns| && forall i :: 0 <= i < |r| ==> r[i] == ViewOf(ns[i])
  {
    seq(|ns|, i requires 0 <= i < |ns| => ViewOf(ns[i]))
  }

  /** The caller's rows in the order the query returns them. */
  function Rows(db: Db, userId: string): seq<Notification>
    reads db
  {
    Seqs.SortBy(Seqs.Filter(db.notifications, For(userId)), NewerFirst())
  }

  /** notification.list. Only a missing session is refused: this procedure checks the user object,
      not its id. */
  function List(db: Db, caller: Caller): (r: Result<seq<NotificationView>>)
    reads db
    ensures caller.None? <==> r == Err(Unauthorized)
    ensures r.Ok? ==> r.value == Views(Rows(db, caller.value))
  {
    if caller.None? then Err(Unauthorized) else Ok(Views(Rows(db, caller.value)))
  }

  /** The rows returned are exactly the user's notifications, each as often as stored, newest first. */
  lemma RowsAreUsersNewestFirst(db: Db, userId: string)
    ensures multiset(Rows(db, userId)) == multiset(Seqs.Filter(db.notifications, For(userId)))
    ensures forall n :: n in Rows(db, userId) <==> n in db.notifications && n.userId == userId
    ensures forall i :: 0 <= i < |Rows(db, userId)| - 1 ==> Rows(db, userId)[i].createdAt >= Rows(db, userId)[i + 1].createdAt
  {
    var mine := Seqs.Filter(db.notifications, For(userId));
    assert Seqs.Total(NewerFirst());
    var rows := Rows(db, userId);
    forall n ensures n in rows <==> n in mine {
      assert n in rows <==> n in multiset(rows);
      assert n in mine <==> n in multiset(mine);
    }
  }

  /** notification.markAsRead: sets `isRead` on the rows with the id, whoever is calling, and
      leaves every other row and field as it was. */
  method MarkAsRead(db: Db, id: string)
    modifies db`notifications
    ensures db.notifications == MarkedRead(old(db.notifications), id)
  {
    db.MarkNotificationRead(id);
  }

  /** Marking is idempotent. */
  lemma MarkTwiceIsMarkOnce(ns: seq<Notification>, id: string)
    ensures MarkedRead(MarkedRead(ns, id), id) == MarkedRead(ns, id)
  {
  }

  /** Marking an id no row has changes nothing. */
  lemma MarkUnknownIsNoOp(ns: seq<Notification>, id: string)
    requires forall n :: n in ns ==> n.id != id
    ensures MarkedRead(ns, id) == ns
  {
    forall i | 0 <= i < |ns| ensures MarkedRead(ns, id)[i] == ns[i] {
      assert ns[i] in ns;
    }
  }

  /** After marking, the rows with the id are read and the unread count never grows. */
  lemma MarkedRowsAreRead(ns: seq<Notification>, id: string)
    ensures forall i :: 0 <= i < |ns| && ns[i].id == id ==> MarkedRead(ns, id)[i].isRead
    ensures forall i :: 0 <= i < |ns| && ns[i].id != id ==> MarkedRead(ns, id)[i] == ns[i]
    ensures |Seqs.Filter(MarkedRead(ns, id), Unread)| <= |Seqs.Filter(ns, Unread)|
  {
    UnreadNeverGrows(ns, id);
  }

  predicate Unread(n: Notification) { !n.isRead }

  lemma UnreadNeverGrows(ns: seq<Notification>, id: string)
    ensures |Seqs.Filter(MarkedRead(ns, id), Unread)| <= |Seqs.Filter(ns, Unread)|
  {
    Seqs.FilterNoLonger(ns, MarkedRead(ns, id), Unread);
  }
}
