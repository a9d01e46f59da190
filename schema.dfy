/** The tables and enumerations of lib/schema/index.ts, plus the comment, comment_mention,
    notification and user rows the routers read and write. Timestamps are naturals. */
module Schema {
  import opened Wrappers

  // ------------------------------------------------------------ enumerations

  const OPEN: int := 0
  const IN_PROGRESS: int := 1
  const CLOSED: int := 2

  const LOW: int := 0
  const MEDIUM: int := 1
  const HIGH: int := 2
  const URGENT: int := 3

  /** `Object.values(STATUS)`, in declaration order. */
  const STATUS_VALUES: seq<int> := [OPEN, IN_PROGRESS, CLOSED]
  /** `Object.values(PRIORITY)`, in declaration order. */
  const PRIORITY_VALUES: seq<int> := [LOW, MEDIUM, HIGH, URGENT]

  /** `STATUS_LABEL[s]`; `None` is JavaScript's `undefined` for a key the object lacks. */
  function StatusLabel(s: int): (r: Option<string>)
    ensures r.Some? <==> s in STATUS_VALUES
  {
    if s == OPEN then Some("Open")
    else if s == IN_PROGRESS then Some("In Progress")
    else if s == CLOSED then Some("Closed")
    else None
  }

  /** `PRIORITY_LABEL[p]`. */
  function PriorityLabel(p: int): (r: Option<string>)
    ensures r.Some? <==> p in PRIORITY_VALUES
  {
    if p == LOW then Some("Low")
    else if p == MEDIUM then Some("Medium")
    else if p == HIGH then Some("High")
    else if p == URGENT then Some("Urgent")
    else None
  }

  /** The status values are exactly 0, 1, 2, listed once each; the priorities exactly 0..3. */
  lemma EnumerationsAreExact()
    ensures forall s :: s in STATUS_VALUES <==> 0 <= s <= 2
    ensures forall p :: p in PRIORITY_VALUES <==> 0 <= p <= 3
    ensures |STATUS_VALUES| == 3 && |PRIORITY_VALUES| == 4
  {
  }

  /** Distinct values carry distinct labels. */
  lemma LabelsAreDistinct()
    ensures forall a, b :: a in STATUS_VALUES && b in STATUS_VALUES && a != b ==> StatusLabel(a) != StatusLabel(b)
    ensures forall a, b :: a in PRIORITY_VALUES && b in PRIORITY_VALUES && a != b ==> PriorityLabel(a) != PriorityLabel(b)
  {
  }

  // ------------------------------------------------------------ rows

  /** A row of the auth schema's `user` table (owned by the authentication library). */
  datatype User = User(id: string, name: string, email: string, image: Option<string>)

  /** A row of `ticket`. `createdBy` is NOT NULL, `assignedTo` nullable; both name users.
      `status` and `priority` are plain integers: the column and the routers accept any number. */
  datatype Ticket = Ticket(
    id: string,
    title: string,
    description: string,
    status: int,
    priority: Option<int>,
    createdBy: string,
    assignedTo: Option<string>,
    startDate: Option<nat>,
    dueDate: Option<nat>,
    createdAt: nat,
    updatedAt: nat)

  datatype Tag = Tag(id: string, name: string, createdAt: nat, updatedAt: nat)

  /** A row of `ticket_tag`: both columns are nullable and there is no key, so the same link
      may be stored more than once. */
  datatype TicketTag = TicketTag(ticketId: Option<string>, tagId: Option<string>, createdAt: nat, updatedAt: nat)

  datatype Comment = Comment(id: string, ticketId: string, body: string, createdBy: string, createdAt: nat)

  datatype CommentMention = CommentMention(commentId: string, userId: string)

  datatype Notification = Notification(
    id: string,
    userId: string,
    body: string,
    kind: string,
    ticketId: string,
    commentId: Option<string>,
    isRead: bool,
    createdAt: nat)

  /** The first row of `users` whose id is `id` (`users.find(u => u.id === id)`). */
  function FindUser(users: seq<User>, id: string): (r: Option<User>)
    ensures r.Some? ==> r.value in users && r.value.id == id
    ensures r.None? ==> forall u :: u in users ==> u.id != id
  {
    if users == [] then None
    else if users[0].id == id then Some(users[0])
    else FindUser(users[1..], id)
  }

  // ------------------------------------------------------------ column defaults

  /** A value given to an INSERT, or left out so that the column default applies.
      (`Given(None)` is an explicit NULL.) */
  datatype Field<T> = Omitted | Given(v: T)

  /** The values of an INSERT INTO ticket. */
  datatype TicketValues = TicketValues(
    id: string,
    title: string,
    description: Field<string>,
    status: Field<int>,
    priority: Field<Option<int>>,
    createdBy: string,
    assignedTo: Option<string>,
    startDate: Option<nat>,
    dueDate: Option<nat>)

  /** The row an INSERT INTO ticket stores at time `now`, with the schema's defaults:
      description "", status OPEN, priority LOW, both timestamps now. */
  function TicketRow(v: TicketValues, now: nat): (t: Ticket)
    ensures t.id == v.id && t.title == v.title && t.createdBy == v.createdBy && t.assignedTo == v.assignedTo
    ensures t.description == (if v.description.Given? then v.description.v else "")
    ensures t.status == (if v.status.Given? then v.status.v else OPEN)
    ensures t.priority == (if v.priority.Given? then v.priority.v else Some(LOW))
    ensures t.startDate == v.startDate && t.dueDate == v.dueDate && t.createdAt == now && t.updatedAt == now
  {
    Ticket(v.id, v.title,
           match v.description case Given(d) => d case Omitted => "",
           match v.status case Given(s) => s case Omitted => OPEN,
           match v.priority case Given(p) => p case Omitted => Some(LOW),
           v.createdBy, v.assignedTo, v.startDate, v.dueDate, now, now)
  }

  /** A new ticket that names only its id, title and creator is OPEN, LOW and has an empty description. */
  lemma NewTicketDefaults(id: string, title: string, createdBy: string, now: nat)
    ensures var t := TicketRow(TicketValues(id, title, Omitted, Omitted, Omitted, createdBy, None, None, None), now);
            t.status == OPEN && t.priority == Some(LOW) && t.description == "" && t.assignedTo == None
  {
  }
}
