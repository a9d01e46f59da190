/** The relational store as one object whose tables are sequences of rows in storage order.
    Each method is one SQL statement the routers issue; its `modifies` clause names the only
    table it writes. */
module Store {
  import opened Wrappers
  import opened Schema
  import Seqs

  /** The SET list of an UPDATE ticket: the whole editable row (ticket.update) or only the
      status (ticket.updateStatus). `updatedAt` is refreshed by the column's `$onUpdate` in both. */
  datatype TicketChange =
    | Edit(title: string, description: string, status: int, priority: Option<int>,
           assignedTo: Option<string>, startDate: Option<nat>, dueDate: Option<nat>)
    | StatusOnly(newStatus: int)

  function Changed(t: Ticket, c: TicketChange, now: nat): (r: Ticket)
    ensures r.id == t.id && r.createdBy == t.createdBy && r.createdAt == t.createdAt && r.updatedAt == now
    ensures c.StatusOnly? ==> r == t.(status := c.newStatus, updatedAt := now)
  {
    match c
    case Edit(title, description, status, priority, assignedTo, startDate, dueDate) =>
      t.(title := title, description := description, status := status, priority := priority,
         assignedTo := assignedTo, startDate := startDate, dueDate := dueDate, updatedAt := now)
    case StatusOnly(s) => t.(status := s, updatedAt := now)
  }

  /** `UPDATE ticket SET c WHERE id = id` applied to the table. */
  function UpdateWhereId(tickets: seq<Ticket>, id: string, c: TicketChange, now: nat): (r: seq<Ticket>)
    ensures |r| == |tickets|
    ensures forall i :: 0 <= i < |r| ==> r[i] == if tickets[i].id == id then Changed(tickets[i], c, now) else tickets[i]
  {
    seq(|tickets|, i requires 0 <= i < |tickets| =>
      if tickets[i].id == id then Changed(tickets[i], c, now) else tickets[i])
  }

  /** The rows of `tickets` whose id is `id` (what `.where(eq(ticket.id, id))` selects). */
  function WithId(tickets: seq<Ticket>, id: string): (r: seq<Ticket>)
    ensures forall t :: t in r <==> t in tickets && t.id == id
  {
    Seqs.Filter(tickets, (t: Ticket) => t.id == id)
  }

  /** An UPDATE by id keeps a row with that id, so its RETURNING clause selects one. */
  lemma UpdateKeepsTheRow(tickets: seq<Ticket>, id: string, c: TicketChange, now: nat)
    requires WithId(tickets, id) != []
    ensures WithId(UpdateWhereId(tickets, id, c, now), id) != []
  {
    var t := WithId(tickets, id)[0];
    assert t in WithId(tickets, id);
    var k :| 0 <= k < |tickets| && tickets[k] == t;
    assert UpdateWhereId(tickets, id, c, now)[k] in WithId(UpdateWhereId(tickets, id, c, now), id);
  }

  /** `UPDATE notification SET is_read = true WHERE id = id` applied to the table. */
  function MarkedRead(ns: seq<Notification>, id: string): (r: seq<Notification>)
    ensures |r| == |ns|
    ensures forall i :: 0 <= i < |r| ==> r[i] == if ns[i].id == id then ns[i].(isRead := true) else ns[i]
  {
    seq(|ns|, i requires 0 <= i < |ns| => if ns[i].id == id then ns[i].(isRead := true) else ns[i])
  }

  class Db {
    var users: seq<User>
    var tags: seq<Tag>
    var tickets: seq<Ticket>
    var ticketTags: seq<TicketTag>
    var comments: seq<Comment>
    var commentMentions: seq<CommentMention>
    var notifications: seq<Notification>

    constructor (users: seq<User>, tags: seq<Tag>, tickets: seq<Ticket>, ticketTags: seq<TicketTag>,
                 comments: seq<Comment>, commentMentions: seq<CommentMention>, notifications: seq<Notification>)
      ensures this.users == users && this.tags == tags && this.tickets == tickets
      ensures this.ticketTags == ticketTags && this.comments == comments
      ensures this.commentMentions == commentMentions && this.notifications == notifications
    {
      this.users := users;
      this.tags := tags;
      this.tickets := tickets;
      this.ticketTags := ticketTags;
      this.comments := comments;
      this.commentMentions := commentMentions;
      this.notifications := notifications;
    }

    /** `INSERT INTO ticket ... RETURNING *`. */
    method InsertTicket(row: Ticket)
      modifies this`tickets
      ensures tickets == old(tickets) + [row]
    {
      tickets := tickets + [row];
    }

    /** `db.insert(ticketTag).values(rows)`: the query builder refuses an empty list of rows
        (it throws before contacting the database), which `ok == false` reports. */
    method InsertTicketTags(rows: seq<TicketTag>) returns (ok: bool)
      modifies this`ticketTags
      ensures ok <==> rows != []
      ensures ticketTags == old(ticketTags) + rows
    {
      ok := rows != [];
      ticketTags := ticketTags + rows;
    }

    /** `DELETE FROM ticket_tag WHERE ticket_id = ticketId`. */
    method DeleteTicketTags(ticketId: string)
      modifies this`ticketTags
      ensures ticketTags == Seqs.Filter(old(ticketTags), (l: TicketTag) => l.ticketId != Some(ticketId))
    {
      ticketTags := Seqs.Filter(ticketTags, (l: TicketTag) => l.ticketId != Some(ticketId));
    }

    /** `UPDATE ticket SET c WHERE id = id RETURNING *` at time `now`. */
    method UpdateTicket(id: string, c: TicketChange, now: nat) returns (updated: seq<Ticket>)
      modifies this`tickets
      ensures tickets == UpdateWhereId(old(tickets), id, c, now)
      ensures updated == WithId(tickets, id)
    {
      tickets := UpdateWhereId(tickets, id, c, now);
      updated := WithId(tickets, id);
    }

    /** `INSERT INTO notification`. */
    method InsertNotification(n: Notification)
      modifies this`notifications
      ensures notifications == old(notifications) + [n]
    {
      notifications := notifications + [n];
    }

    /** `UPDATE notification SET is_read = true WHERE id = id`. */
    method MarkNotificationRead(id: string)
      modifies this`notifications
      ensures notifications == MarkedRead(old(notifications), id)
    {
      notifications := MarkedRead(notifications, id);
    }

    /** `INSERT INTO comment`. */
    method InsertComment(c: Comment)
      modifies this`comments
      ensures comments == old(comments) + [c]
    {
      comments := comments + [c];
    }

    /** `db.insert(commentMention).values(rows)`; like `InsertTicketTags`, refuses an empty list. */
    method InsertCommentMentions(rows: seq<CommentMention>) returns (ok: bool)
      modifies this`commentMentions
      ensures ok <==> rows != []
      ensures commentMentions == old(commentMentions) + rows
    {
      ok := rows != [];
      commentMentions := commentMentions + rows;
    }
  }
}
