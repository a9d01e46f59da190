/** trpc/routers/ticket.ts: listing with sorting, filters, pagination and tag hydration,
    lookup by id, and the three write procedures. */
module TicketRouter {
  import opened Wrappers
  import opened Schema
  import opened Rpc
  import opened Store
  import Seqs

  // ================================================================ sorting

  /** One entry of the client's `sorting` array. */
  datatype SortInput = SortInput(id: string, desc: bool)

  /** The nine columns `sortableColumns` offers. */
  datatype Column = Title | CreatedAt | UpdatedAt | StartDate | DueDate | Status | Priority | AssignedTo | CreatedBy

  datatype SortKey = SortKey(column: Column, descending: bool)

  const SORTABLE_NAMES: seq<string> :=
    ["title", "createdAt", "updatedAt", "startDate", "dueDate", "status", "priority", "assignedTo", "createdBy"]

  /** The column a client-side name stands for: an own property of `sortableColumns`. */
  function ColumnNamed(name: string): (r: Option<Column>)
    ensures r.Some? <==> name in SORTABLE_NAMES
  {
    if name == "title" then Some(Title)
    else if name == "createdAt" then Some(CreatedAt)
    else if name == "updatedAt" then Some(UpdatedAt)
    else if name == "startDate" then Some(StartDate)
    else if name == "dueDate" then Some(DueDate)
    else if name == "status" then Some(Status)
    else if name == "priority" then Some(Priority)
    else if name == "assignedTo" then Some(AssignedTo)
    else if name == "createdBy" then Some(CreatedBy)
    else None
  }

  predicate Sortable(e: SortInput) {
    e.id in SORTABLE_NAMES
  }

  /** The ORDER BY key of a whitelisted entry: its column, descending exactly when `desc` is set. */
  function KeyOf(e: SortInput): (k: SortKey)
    requires Sortable(e)
    ensures ColumnNamed(e.id) == Some(k.column) && k.descending == e.desc
  {
    SortKey(ColumnNamed(e.id).value, e.desc)
  }

  /** `.filter(...).map(...)` over a sorting array. */
  function KeysOf(s: seq<SortInput>): (r: seq<SortKey>)
  {
    KeysOfKept(Seqs.Filter(s, Sortable))
  }

  /** `.map(...)` over the entries the whitelist kept. */
  function KeysOfKept(kept: seq<SortInput>): (r: seq<SortKey>)
    requires forall e :: e in kept ==> Sortable(e)
  {
    seq(|kept|, i requires 0 <= i < |kept| => assert kept[i] in kept; KeyOf(kept[i]))
  }

  lemma KeysOfKeptAppend(x: seq<SortInput>, y: seq<SortInput>)
    requires forall e :: e in x + y ==> Sortable(e)
    ensures KeysOfKept(x + y) == KeysOfKept(x) + KeysOfKept(y)
  {
    assert forall e :: e in x ==> e in x + y;
    assert forall e :: e in y ==> e in x + y;
    var l, r := KeysOfKept(x + y), KeysOfKept(x) + KeysOfKept(y);
    forall i | 0 <= i < |l| ensures l[i] == r[i] {
      if i < |x| {
        assert (x + y)[i] == x[i];
      } else {
        assert (x + y)[i] == y[i - |x|];
      }
    }
  }

  /** `input.sorting?.filter(...)?.map(...) ?? []`, with the whitelist read as own properties. */
  function SortKeys(sorting: Option<seq<SortInput>>): (r: seq<SortKey>)
    ensures sorting.None? ==> r == []
  {
    match sorting
    case None => []
    case Some(s) => KeysOf(s)
  }

  /** The keys are the whitelisted entries, in the client's order, and nothing else: entry `i`
      of the result comes from the `i`-th entry with a known name. */
  lemma KeysAreKnownEntriesInOrder(s: seq<SortInput>)
    ensures |KeysOf(s)| == |Seqs.Filter(s, Sortable)| <= |s|
    ensures forall i :: 0 <= i < |KeysOf(s)| ==>
              ColumnNamed(Seqs.Filter(s, Sortable)[i].id) == Some(KeysOf(s)[i].column) &&
              KeysOf(s)[i].descending == Seqs.Filter(s, Sortable)[i].desc
    ensures (forall e :: e in s ==> Sortable(e)) ==> |KeysOf(s)| == |s|
  {
    if forall e :: e in s ==> Sortable(e) {
      Seqs.FilterAll(s, Sortable);
    }
  }

  /** Sorting splits over concatenation: every entry contributes independently. */
  lemma KeysOfAppend(a: seq<SortInput>, b: seq<SortInput>)
    ensures KeysOf(a + b) == KeysOf(a) + KeysOf(b)
  {
    Seqs.FilterAppend(a, b, Sortable);
    KeysOfKeptAppend(Seqs.Filter(a, Sortable), Seqs.Filter(b, Sortable));
  }

  /** An entry with a name outside the whitelist is dropped without changing the other keys. */
  lemma UnknownNameIsDropped(a: seq<SortInput>, e: SortInput, b: seq<SortInput>)
    requires e.id !in SORTABLE_NAMES
    ensures KeysOf(a + [e] + b) == KeysOf(a + b)
  {
    var ae := a + [e];
    assert KeysOf([e]) == [] by {
      assert Seqs.Filter([e], Sortable) == [];
    }
    assert KeysOf(ae) == KeysOf(a) by {
      KeysOfAppend(a, [e]);
    }
    KeysOfAppend(ae, b);
    KeysOfAppend(a, b);
  }

  // ---------------------------------------------------------------- as written

  /** Property names every object literal inherits from `Object.prototype`. */
  const OBJECT_PROTOTYPE_NAMES: seq<string> :=
    ["constructor", "hasOwnProperty", "isPrototypeOf", "propertyIsEnumerable", "toLocaleString",
     "toString", "valueOf", "__proto__", "__defineGetter__", "__defineSetter__",
     "__lookupGetter__", "__lookupSetter__"]

  /** `sort.id in sortableColumns` as the code writes it: JavaScript's `in` also finds inherited names. */
  predicate InSortableColumnsAsWritten(name: string) {
    name in SORTABLE_NAMES || name in OBJECT_PROTOTYPE_NAMES
  }

  predicate KeptAsWritten(e: SortInput) {
    InSortableColumnsAsWritten(e.id)
  }

  /** `sortableColumns[sort.id]` for an entry the code's filter keeps: `None` stands for an
      inherited member, which is not a column at all. */
  function EntryAsWritten(e: SortInput): (r: Option<SortKey>)
    ensures r.Some? <==> Sortable(e)
  {
    match ColumnNamed(e.id)
    case Some(c) => Some(SortKey(c, e.desc))
    case None => None
  }

  /** The code's `.filter(...).map(...)` with JavaScript's `in`. */
  function SortEntriesAsWritten(s: seq<SortInput>): (r: seq<Option<SortKey>>)
  {
    var kept := Seqs.Filter(s, KeptAsWritten);
    seq(|kept|, i requires 0 <= i < |kept| => EntryAsWritten(kept[i]))
  }

  /** "toString" is not one of the nine columns, yet the filter keeps it and hands a
      non-column to the ORDER BY, where the whitelist reading drops it. */
  lemma InheritedNamePassesTheWhitelist()
    ensures InSortableColumnsAsWritten("toString")
    ensures ColumnNamed("toString") == None
    ensures SortEntriesAsWritten([SortInput("toString", false)]) == [None]
    ensures SortKeys(Some([SortInput("toString", false)])) == []
  {
    assert "toString" == OBJECT_PROTOTYPE_NAMES[5];
  }

  // ================================================================ comparison

  /** A column value as the database compares it. */
  datatype SqlValue = Null | Int(i: int) | Text(s: string)

  function ColumnValue(t: Ticket, c: Column): SqlValue {
    match c
    case Title => Text(t.title)
    case CreatedAt => Int(t.createdAt)
    case UpdatedAt => Int(t.updatedAt)
    case StartDate => if t.startDate.Some? then Int(t.startDate.value) else Null
    case DueDate => if t.dueDate.Some? then Int(t.dueDate.value) else Null
    case Status => Int(t.status)
    case Priority => if t.priority.Some? then Int(t.priority.value) else Null
    case AssignedTo => if t.assignedTo.Some? then Text(t.assignedTo.value) else Null
    case CreatedBy => Text(t.createdBy)
  }

  function Sign(x: int): int { if x < 0 then -1 else if x > 0 then 1 else 0 }

  /** Code-point order on text. */
  function CompareText(a: string, b: string): (c: int)
    ensures -1 <= c <= 1
    ensures c == 0 <==> a == b
    decreases |a|
  {
    if a == [] && b == [] then 0
    else if a == [] then -1
    else if b == [] then 1
    else if a[0] != b[0] then Sign(a[0] as int - b[0] as int)
    else
      assert a == [a[0]] + a[1..] && b == [b[0]] + b[1..];
      CompareText(a[1..], b[1..])
  }

  lemma {:induction false} CompareTextAntisymmetric(a: string, b: string)
    ensures CompareText(a, b) == -CompareText(b, a)
    decreases |a|
  {
    if a != [] && b != [] && a[0] == b[0] {
      CompareTextAntisymmetric(a[1..], b[1..]);
    }
  }

  /** Three-way comparison of two values of one column; NULL ranks above every value
      (PostgreSQL's default placement, a choice of this model). */
  function CompareValues(a: SqlValue, b: SqlValue): (c: int)
    ensures -1 <= c <= 1
  {
    match (a, b)
    case (Null, Null) => 0
    case (Null, _) => 1
    case (_, Null) => -1
    case (Int(x), Int(y)) => Sign(x - y)
    case (Text(x), Text(y)) => CompareText(x, y)
    case (Int(_), Text(_)) => -1
    case (Text(_), Int(_)) => 1
  }

  lemma CompareValuesAntisymmetric(a: SqlValue, b: SqlValue)
    ensures CompareValues(a, b) == -CompareValues(b, a)
  {
    if a.Text? && b.Text? { CompareTextAntisymmetric(a.s, b.s); }
  }

  /** Lexicographic comparison by the ORDER BY keys: the first key on which the rows differ decides. */
  function CompareBy(a: Ticket, b: Ticket, keys: seq<SortKey>): (c: int)
    ensures -1 <= c <= 1
    decreases |keys|
  {
    if keys == [] then 0
    else
      var c := CompareValues(ColumnValue(a, keys[0].column), ColumnValue(b, keys[0].column));
      var d := if keys[0].descending then -c else c;
      if d != 0 then d else CompareBy(a, b, keys[1..])
  }

  lemma {:induction false} CompareByAntisymmetric(a: Ticket, b: Ticket, keys: seq<SortKey>)
    ensures CompareBy(a, b, keys) == -CompareBy(b, a, keys)
    decreases |keys|
  {
    if keys != [] {
      CompareValuesAntisymmetric(ColumnValue(a, keys[0].column), ColumnValue(b, keys[0].column));
      CompareByAntisymmetric(a, b, keys[1..]);
    }
  }

  // ================================================================ rows of the list query

  /** A row of `ticket INNER JOIN user AS createdBy LEFT JOIN user AS assignedTo`. */
  datatype Row = Row(ticket: Ticket, creator: User, assignee: Option<User>)

  function RowLeq(keys: seq<SortKey>): (Row, Row) -> bool {
    (x: Row, y: Row) => CompareBy(x.ticket, y.ticket, keys) <= 0
  }

  /** The order of the kept keys relates every pair of rows, so the sorted result is fully ordered. */
  lemma RowOrderIsTotal(keys: seq<SortKey>)
    ensures Seqs.Total(RowLeq(keys))
  {
    forall x: Row, y: Row ensures RowLeq(keys)(x, y) || RowLeq(keys)(y, x) {
      CompareByAntisymmetric(x.ticket, y.ticket, keys);
    }
  }

  /** The left join's partner: the assignee's user row, or none. */
  function AssigneeOf(t: Ticket, users: seq<User>): Option<User> {
    if t.assignedTo.Some? then FindUser(users, t.assignedTo.value) else None
  }

  /** The ticket rows paired with their users: a ticket whose creator has no user row has no partner
      in the inner join and drops out. */
  function JoinUsers(tickets: seq<Ticket>, users: seq<User>): (r: seq<Row>)
    ensures |r| <= |tickets|
    ensures forall row :: row in r ==>
              row.ticket in tickets && FindUser(users, row.ticket.createdBy) == Some(row.creator) &&
              row.assignee == AssigneeOf(row.ticket, users)
    ensures forall t :: t in tickets && FindUser(users, t.createdBy).Some? ==> exists row :: row in r && row.ticket == t
    ensures (forall t :: t in tickets ==> FindUser(users, t.createdBy).Some?) ==>
              |r| == |tickets| && forall i :: 0 <= i < |r| ==> r[i].ticket == tickets[i]
    decreases |tickets|
  {
    if tickets == [] then []
    else
      var t := tickets[0];
      var rest := JoinUsers(tickets[1..], users);
      assert tickets == [t] + tickets[1..];
      match FindUser(users, t.createdBy)
      case Some(c) => [Row(t, c, AssigneeOf(t, users))] + rest
      case None => rest
  }

  // ================================================================ filters

  /** The entries of the `conditions` array. */
  datatype Condition = StatusIs(status: int) | PriorityIs(priority: int)

  datatype ListInput = ListInput(
    sorting: Option<seq<SortInput>>,
    pageIndex: Option<nat>,
    pageSize: Option<nat>,
    status: Option<int>,
    priority: Option<int>)

  /** The conditions pushed for the non-null filters, status first. */
  function Conditions(input: ListInput): seq<Condition> {
    (if input.status.Some? then [StatusIs(input.status.value)] else []) +
    (if input.priority.Some? then [PriorityIs(input.priority.value)] else [])
  }

  /** One condition; `priority = p` is never true of a NULL priority. */
  predicate Satisfies(c: Condition, t: Ticket) {
    match c
    case StatusIs(s) => t.status == s
    case PriorityIs(p) => t.priority == Some(p)
  }

  /** `and(...conditions)`, or no WHERE clause when there are none. */
  function Where(conditions: seq<Condition>): Ticket -> bool {
    (t: Ticket) => forall c :: c in conditions ==> Satisfies(c, t)
  }

  /** A ticket passes iff it matches every given filter; an absent filter admits every ticket. */
  lemma WhereMeansFilters(input: ListInput, t: Ticket)
    ensures Where(Conditions(input))(t) <==>
              (input.status.None? || t.status == input.status.value) &&
              (input.priority.None? || t.priority == Some(input.priority.value))
  {
    var cs := Conditions(input);
    if input.status.Some? {
      assert StatusIs(input.status.value) in cs;
    }
    if input.priority.Some? {
      assert PriorityIs(input.priority.value) in cs;
    }
  }

  // ================================================================ tags

  datatype TagRef = TagRef(id: string, name: string)

  /** A row of `ticket_tag INNER JOIN tag ON tag_id = tag.id`. */
  datatype TagRow = TagRow(ticketId: Option<string>, id: string, name: string)

  function RowsOfLink(l: TicketTag, tags: seq<Tag>): (r: seq<TagRow>)
    ensures forall row :: row in r ==> row.ticketId == l.ticketId
    decreases |tags|
  {
    if tags == [] then []
    else
      (if l.tagId == Some(tags[0].id) then [TagRow(l.ticketId, tags[0].id, tags[0].name)] else [])
        + RowsOfLink(l, tags[1..])
  }

  function JoinTags(links: seq<TicketTag>, tags: seq<Tag>): seq<TagRow>
    decreases |links|
  {
    if links == [] then [] else RowsOfLink(links[0], tags) + JoinTags(links[1..], tags)
  }

  function Refs(rows: seq<TagRow>): (r: seq<TagRef>)
    ensures |r| == |rows|
    ensures forall i :: 0 <= i < |r| ==> r[i] == TagRef(rows[i].id, rows[i].name)
  {
    seq(|rows|, i requires 0 <= i < |rows| => TagRef(rows[i].id, rows[i].name))
  }

  /** `eq(ticketTag.ticketId, id)`: a NULL ticket id matches nothing. */
  function LinkedTo(id: string): TicketTag -> bool {
    (l: TicketTag) => l.ticketId == Some(id)
  }

  /** `inArray(ticketTag.ticketId, ids)`. */
  function LinkedToAny(ids: seq<string>): TicketTag -> bool {
    (l: TicketTag) => l.ticketId.Some? && l.ticketId.value in ids
  }

  /** `ticket.id === tag.ticketId` in the in-memory merge. */
  function RowOf(id: string): TagRow -> bool {
    (r: TagRow) => r.ticketId == Some(id)
  }

  /** The reference definition of a ticket's tags: its links, in storage order and duplicates
      included, each joined with its tag row (this is also ticket.get's query). */
  function TagsOf(links: seq<TicketTag>, tags: seq<Tag>, id: string): seq<TagRef> {
    Refs(JoinTags(Seqs.Filter(links, LinkedTo(id)), tags))
  }

  lemma {:induction false} JoinTagsAppend(a: seq<TicketTag>, b: seq<TicketTag>, tags: seq<Tag>)
    ensures JoinTags(a + b, tags) == JoinTags(a, tags) + JoinTags(b, tags)
    decreases |a|
  {
    if a == [] {
      assert a + b == b;
    } else {
      assert (a + b)[1..] == a[1..] + b;
      JoinTagsAppend(a[1..], b, tags);
    }
  }

  /** Selecting one ticket's rows after the join is the join of that ticket's links. */
  lemma {:induction false} FilterJoinTags(links: seq<TicketTag>, tags: seq<Tag>, id: string)
    ensures Seqs.Filter(JoinTags(links, tags), RowOf(id)) == JoinTags(Seqs.Filter(links, LinkedTo(id)), tags)
    decreases |links|
  {
    if links != [] {
      var l := links[0];
      var head := RowsOfLink(l, tags);
      Seqs.FilterAppend(head, JoinTags(links[1..], tags), RowOf(id));
      FilterJoinTags(links[1..], tags, id);
      if l.ticketId == Some(id) {
        Seqs.FilterAll(head, RowOf(id));
        assert Seqs.Filter(links, LinkedTo(id)) == [l] + Seqs.Filter(links[1..], LinkedTo(id));
      } else {
        Seqs.FilterNone(head, RowOf(id));
      }
    }
  }

  /** The list's tag hydration: one batch for the ids of the page, split per ticket in memory.
      For a ticket of the page it yields exactly that ticket's tags. */
  lemma BatchedTagsAreTagsOf(links: seq<TicketTag>, tags: seq<Tag>, ids: seq<string>, id: string)
    requires id in ids
    ensures Refs(Seqs.Filter(JoinTags(Seqs.Filter(links, LinkedToAny(ids)), tags), RowOf(id))) == TagsOf(links, tags, id)
  {
    FilterJoinTags(Seqs.Filter(links, LinkedToAny(ids)), tags, id);
    Seqs.FilterFilter(links, LinkedToAny(ids), LinkedTo(id));
  }

  /** Two identical links (ticket_tag has no key) give the tag twice. */
  lemma DuplicateLinksAreKept(ticketId: string, tag: Tag, at: nat)
    ensures var l := TicketTag(Some(ticketId), Some(tag.id), at, at);
            TagsOf([l, l], [tag], ticketId) == [TagRef(tag.id, tag.name), TagRef(tag.id, tag.name)]
  {
    var l := TicketTag(Some(ticketId), Some(tag.id), at, at);
    assert [l, l][1..] == [l];
    assert Seqs.Filter([l, l], LinkedTo(ticketId)) == [l, l];
    assert [tag][1..] == [];
    assert RowsOfLink(l, [tag]) == [TagRow(Some(ticketId), tag.id, tag.name)];
    assert JoinTags([l], [tag]) == [TagRow(Some(ticketId), tag.id, tag.name)];
    assert JoinTags([l, l], [tag]) == RowsOfLink(l, [tag]) + JoinTags([l], [tag]);
  }

  // ================================================================ list and get

  datatype UserRef = UserRef(id: string, name: string, image: Option<string>)

  datatype TicketView = TicketView(
    id: string,
    title: string,
    description: string,
    status: int,
    priority: Option<int>,
    createdAt: nat,
    updatedAt: nat,
    startDate: Option<nat>,
    dueDate: Option<nat>,
    createdBy: UserRef,
    assignedTo: Option<UserRef>,
    tags: seq<TagRef>)

  function RefOf(u: User): UserRef {
    UserRef(u.id, u.name, u.image)
  }

  /** The selected fields of a joined row, with its tags. */
  function ViewOf(row: Row, tags: seq<TagRef>): (v: TicketView)
    ensures v.id == row.ticket.id && v.status == row.ticket.status && v.priority == row.ticket.priority
    ensures v.tags == tags && v.createdBy.id == row.creator.id
  {
    var t := row.ticket;
    TicketView(t.id, t.title, t.description, t.status, t.priority, t.createdAt, t.updatedAt,
               t.startDate, t.dueDate, RefOf(row.creator),
               if row.assignee.Some? then Some(RefOf(row.assignee.value)) else None, tags)
  }

  datatype ListResult = ListResult(tickets: seq<TicketView>, totalCount: nat, pageIndex: nat, pageSize: nat)

  function Limit(input: ListInput): nat { input.pageSize.GetOr(10) }

  function Offset(input: ListInput): nat { input.pageIndex.GetOr(0) * input.pageSize.GetOr(10) }

  /** The filtered, joined rows in ORDER BY order, before LIMIT/OFFSET. */
  function Ordered(db: Db, input: ListInput): seq<Row>
    reads db
  {
    Seqs.SortBy(JoinUsers(Seqs.Filter(db.tickets, Where(Conditions(input))), db.users), RowLeq(SortKeys(input.sorting)))
  }

  function PageIds(page: seq<Row>): (r: seq<string>)
    ensures |r| == |page| && forall i :: 0 <= i < |r| ==> r[i] == page[i].ticket.id
  {
    seq(|page|, i requires 0 <= i < |page| => page[i].ticket.id)
  }

  /** `tickets.map(ticket => ({...ticket, tags: ticketTags.filter(...)}))`. */
  function Hydrate(page: seq<Row>, batch: seq<TagRow>): (r: seq<TicketView>)
    ensures |r| == |page|
    ensures forall i :: 0 <= i < |r| ==> r[i] == ViewOf(page[i], Refs(Seqs.Filter(batch, RowOf(page[i].ticket.id))))
  {
    seq(|page|, i requires 0 <= i < |page| => ViewOf(page[i], Refs(Seqs.Filter(batch, RowOf(page[i].ticket.id)))))
  }

  /** `views` are the rows of `rows` from `offset` on, in order, each with exactly its own tags. */
  predicate ViewsOfRows(views: seq<TicketView>, rows: seq<Row>, offset: nat, links: seq<TicketTag>, tags: seq<Tag>) {
    (views != [] ==> offset + |views| <= |rows|) &&
    forall i :: 0 <= i < |views| ==>
      views[i] == ViewOf(rows[offset + i], TagsOf(links, tags, rows[offset + i].ticket.id))
  }

  /** Each row of the page gets exactly its own tags from the one batched query. */
  lemma HydratedTagsAreTagsOf(links: seq<TicketTag>, tags: seq<Tag>, ordered: seq<Row>, offset: nat, limit: nat)
    ensures var page := Seqs.Page(ordered, offset, limit);
            var batch := JoinTags(Seqs.Filter(links, LinkedToAny(PageIds(page))), tags);
            ViewsOfRows(Hydrate(page, batch), ordered, offset, links, tags)
  {
    var page := Seqs.Page(ordered, offset, limit);
    var ids := PageIds(page);
    var batch := JoinTags(Seqs.Filter(links, LinkedToAny(ids)), tags);
    forall i | 0 <= i < |page|
      ensures Hydrate(page, batch)[i] == ViewOf(ordered[offset + i], TagsOf(links, tags, ordered[offset + i].ticket.id))
    {
      assert page[i] == ordered[offset + i];
      assert ids[i] == page[i].ticket.id;
      BatchedTagsAreTagsOf(links, tags, ids, page[i].ticket.id);
    }
  }

  /** ticket.list. The page is the slice of the ordered rows that LIMIT/OFFSET select, each with
      exactly its own tags; the count covers every ticket the filters admit, on every page. */
  function List(db: Db, input: ListInput): (r: ListResult)
    reads db
    ensures r.pageIndex == input.pageIndex.GetOr(0) && r.pageSize == input.pageSize.GetOr(10)
    ensures r.totalCount == |Seqs.Filter(db.tickets, Where(Conditions(input)))|
    ensures |r.tickets| <= r.pageSize
    ensures |r.tickets| == |Seqs.Page(Ordered(db, input), Offset(input), Limit(input))|
    ensures ViewsOfRows(r.tickets, Ordered(db, input), Offset(input), db.ticketTags, db.tags)
  {
    var ordered, offset := Ordered(db, input), Offset(input);
    var page := Seqs.Page(ordered, offset, Limit(input));
    var ids := PageIds(page);
    var batch := JoinTags(Seqs.Filter(db.ticketTags, LinkedToAny(ids)), db.tags);
    var views := Hydrate(page, batch);
    HydratedTagsAreTagsOf(db.ticketTags, db.tags, ordered, offset, Limit(input));
    ListResult(views, |Seqs.Filter(db.tickets, Where(Conditions(input)))|, input.pageIndex.GetOr(0), input.pageSize.GetOr(10))
  }

  /** The ordered rows are exactly the admitted tickets that have a creator, sorted by the kept keys
      (first differing key decides, descending where asked). */
  lemma OrderedIsSortedSelection(db: Db, input: ListInput)
    ensures multiset(Ordered(db, input)) == multiset(JoinUsers(Seqs.Filter(db.tickets, Where(Conditions(input))), db.users))
    ensures forall i :: 0 <= i < |Ordered(db, input)| - 1 ==>
              CompareBy(Ordered(db, input)[i].ticket, Ordered(db, input)[i + 1].ticket, SortKeys(input.sorting)) <= 0
    ensures forall row :: row in Ordered(db, input) ==> row.ticket in db.tickets && Where(Conditions(input))(row.ticket)
  {
    var keys := SortKeys(input.sorting);
    RowOrderIsTotal(keys);
    var rows := Ordered(db, input);
    forall row | row in rows ensures row.ticket in db.tickets && Where(Conditions(input))(row.ticket) {
      assert row in multiset(rows);
    }
  }

  /** When every ticket's creator has a user row (the foreign key), the rows the page is cut from
      number exactly `totalCount`, so the pages together cover every admitted ticket. */
  lemma CountMatchesRows(db: Db, input: ListInput)
    requires forall t :: t in db.tickets ==> FindUser(db.users, t.createdBy).Some?
    ensures |Ordered(db, input)| == List(db, input).totalCount
  {
  }

  /** A sorting entry with an unknown name changes nothing in the listing. */
  lemma UnknownSortNameIsNoOp(db: Db, input: ListInput, a: seq<SortInput>, e: SortInput, b: seq<SortInput>)
    requires e.id !in SORTABLE_NAMES
    ensures List(db, input.(sorting := Some(a + [e] + b))) == List(db, input.(sorting := Some(a + b)))
  {
    UnknownNameIsDropped(a, e, b);
    SameKeysSameList(db, input, Some(a + [e] + b), Some(a + b));
  }

  /** The listing depends on the sorting only through the keys kept from it. */
  lemma SameKeysSameList(db: Db, input: ListInput, s1: Option<seq<SortInput>>, s2: Option<seq<SortInput>>)
    requires SortKeys(s1) == SortKeys(s2)
    ensures List(db, input.(sorting := s1)) == List(db, input.(sorting := s2))
  {
    var i1, i2 := input.(sorting := s1), input.(sorting := s2);
    assert Conditions(i1) == Conditions(i2);
    assert Offset(i1) == Offset(i2) && Limit(i1) == Limit(i2);
    assert Ordered(db, i1) == Ordered(db, i2);
  }

  /** ticket.get: the first joined row with the id, with its tags; NOT_FOUND when there is none
      (a ticket whose creator has no user row is not found either). */
  function Get(db: Db, id: string): (r: Result<TicketView>)
    reads db
    ensures r.Err? <==> forall row :: row in JoinUsers(db.tickets, db.users) ==> row.ticket.id != id
    ensures r.Err? ==> r.code == NotFound
    ensures r.Ok? ==> r.value.id == id && r.value.tags == TagsOf(db.ticketTags, db.tags, id)
    ensures r.Ok? ==> exists row :: row in JoinUsers(db.tickets, db.users) && r.value == ViewOf(row, r.value.tags)
  {
    var found := Seqs.Filter(JoinUsers(db.tickets, db.users), (row: Row) => row.ticket.id == id);
    if found == [] then Err(NotFound)
    else
      assert found[0] in found;
      Ok(ViewOf(found[0], TagsOf(db.ticketTags, db.tags, id)))
  }

  // ================================================================ writes

  /** The fields of the create and update inputs. */
  datatype TicketInput = TicketInput(
    title: string,
    description: string,
    status: int,
    priority: Option<int>,
    assignedTo: Option<string>,
    startDate: Option<nat>,
    dueDate: Option<nat>,
    tags: Option<seq<string>>)

  /** JavaScript truthiness of a nullable string. */
  predicate Truthy(s: Option<string>) {
    s.Some? && s.value != ""
  }

  /** One `ticket_tag` row per tag id, in the order given. */
  function LinkRows(ticketId: string, tagIds: seq<string>, now: nat): (r: seq<TicketTag>)
    ensures |r| == |tagIds|
    ensures forall i :: 0 <= i < |r| ==> r[i] == TicketTag(Some(ticketId), Some(tagIds[i]), now, now)
  {
    seq(|tagIds|, i requires 0 <= i < |tagIds| => TicketTag(Some(ticketId), Some(tagIds[i]), now, now))
  }

  function AssignmentNotice(id: string, assignee: string, title: string, ticketId: string, now: nat): Notification {
    Notification(id, assignee, "You have been assigned to ticket " + title, "ticket_assigned", ticketId, None, false, now)
  }

  /** The row ticket.create inserts: every editable field is given, so no column default applies
      except the timestamps. */
  function NewTicket(id: string, creator: string, input: TicketInput, now: nat): Ticket {
    TicketRow(TicketValues(id, input.title, Given(input.description), Given(input.status), Given(input.priority),
                           creator, input.assignedTo, input.startDate, input.dueDate), now)
  }

  /** ticket.create as the code is written: `if (input.tags)` is true of an empty array, and the
      query builder throws on an empty insert, so `tags: []` fails after the ticket row is stored. */
  method CreateAsWritten(db: Db, caller: Caller, input: TicketInput, ticketId: string, notificationId: string, now: nat)
    returns (r: Result<Ticket>)
    modifies db`tickets, db`ticketTags, db`notifications
    ensures !HasUserId(caller) ==> r == Err(Unauthorized) && unchanged(db)
    ensures HasUserId(caller) ==> db.tickets == old(db.tickets) + [NewTicket(ticketId, caller.value, input, now)]
    ensures HasUserId(caller) ==> db.ticketTags == old(db.ticketTags) + LinkRows(ticketId, input.tags.GetOr([]), now)
    ensures HasUserId(caller) && input.tags == Some([]) ==>
              r == Err(InternalServerError) && db.notifications == old(db.notifications)
    ensures HasUserId(caller) && input.tags != Some([]) ==>
              r == Ok(NewTicket(ticketId, caller.value, input, now)) &&
              db.notifications == old(db.notifications) +
                (if Truthy(input.assignedTo)
                 then [AssignmentNotice(notificationId, input.assignedTo.value, input.title, ticketId, now)] else [])
  {
    if !HasUserId(caller) {
      return Err(Unauthorized);
    }
    var row := NewTicket(ticketId, caller.value, input, now);
    db.InsertTicket(row);
    if input.tags.Some? {
      var ok := db.InsertTicketTags(LinkRows(ticketId, input.tags.value, now));
      if !ok {
        return Err(InternalServerError);
      }
    }
    if Truthy(input.assignedTo) {
      db.InsertNotification(AssignmentNotice(notificationId, input.assignedTo.value, input.title, ticketId, now));
    }
    r := Ok(row);
  }

  /** ticket.create with the empty tag list guarded as ticket.update and comment.create guard it:
      one ticket created by the caller, one link per tag id, and one "ticket_assigned"
      notification to the assignee exactly when an assignee is named. */
  method Create(db: Db, caller: Caller, input: TicketInput, ticketId: string, notificationId: string, now: nat)
    returns (r: Result<Ticket>)
    modifies db`tickets, db`ticketTags, db`notifications
    ensures !HasUserId(caller) ==> r == Err(Unauthorized) && unchanged(db)
    ensures HasUserId(caller) ==>
              var row := NewTicket(ticketId, caller.value, input, now);
              r == Ok(row) && row.createdBy == caller.value &&
              db.tickets == old(db.tickets) + [row] &&
              db.ticketTags == old(db.ticketTags) + LinkRows(ticketId, input.tags.GetOr([]), now) &&
              db.notifications == old(db.notifications) +
                (if Truthy(input.assignedTo)
                 then [AssignmentNotice(notificationId, input.assignedTo.value, input.title, ticketId, now)] else [])
  {
    if !HasUserId(caller) {
      return Err(Unauthorized);
    }
    var row := NewTicket(ticketId, caller.value, input, now);
    db.InsertTicket(row);
    if input.tags.Some? && |input.tags.value| > 0 {
      var _ := db.InsertTicketTags(LinkRows(ticketId, input.tags.value, now));
    }
    if Truthy(input.assignedTo) {
      db.InsertNotification(AssignmentNotice(notificationId, input.assignedTo.value, input.title, ticketId, now));
    }
    r := Ok(row);
  }

  /** A concrete run of the code as written: a signed-in user creates a ticket for an existing
      assignee with an empty tag list; the ticket is stored, the call fails, and the assignee
      hears nothing. */
  method CreateWithEmptyTagsExample() returns (db: Db, r: Result<Ticket>)
    ensures r == Err(InternalServerError)
    ensures |db.tickets| == 1 && db.notifications == []
  {
    var users := [User("u1", "Ann", "ann@example.com", None), User("u2", "Bo", "bo@example.com", None)];
    db := new Db(users, [], [], [], [], [], []);
    var input := TicketInput("T", "", OPEN, None, Some("u2"), None, None, Some([]));
    r := CreateAsWritten(db, Some("u1"), input, "t1", "n1", 7);
  }

  datatype UpdateInput = UpdateInput(id: string, fields: TicketInput)

  function EditOf(f: TicketInput): TicketChange {
    Edit(f.title, f.description, f.status, f.priority, f.assignedTo, f.startDate, f.dueDate)
  }

  /** The links after ticket.update replaced ticket `id`'s tag set by `tagIds`. */
  function ReplacedLinks(links: seq<TicketTag>, id: string, tagIds: seq<string>, now: nat): seq<TicketTag> {
    Seqs.Filter(links, (l: TicketTag) => l.ticketId != Some(id)) + LinkRows(id, tagIds, now)
  }

  /** After the replacement the ticket's links are exactly the given tag ids, in order. */
  lemma ReplacedLinksOfTicket(links: seq<TicketTag>, id: string, tagIds: seq<string>, now: nat)
    ensures Seqs.Filter(ReplacedLinks(links, id, tagIds, now), LinkedTo(id)) == LinkRows(id, tagIds, now)
  {
    var kept := Seqs.Filter(links, (l: TicketTag) => l.ticketId != Some(id));
    Seqs.FilterAppend(kept, LinkRows(id, tagIds, now), LinkedTo(id));
    Seqs.FilterNone(kept, LinkedTo(id));
    Seqs.FilterAll(LinkRows(id, tagIds, now), LinkedTo(id));
  }

  /** Every other ticket keeps exactly its links. */
  lemma ReplacedLinksOfOtherTicket(links: seq<TicketTag>, id: string, other: string, tagIds: seq<string>, now: nat)
    requires other != id
    ensures Seqs.Filter(ReplacedLinks(links, id, tagIds, now), LinkedTo(other)) == Seqs.Filter(links, LinkedTo(other))
  {
    var notId := (l: TicketTag) => l.ticketId != Some(id);
    var kept := Seqs.Filter(links, notId);
    Seqs.FilterAppend(kept, LinkRows(id, tagIds, now), LinkedTo(other));
    Seqs.FilterNone(LinkRows(id, tagIds, now), LinkedTo(other));
    Seqs.FilterFilter(links, notId, LinkedTo(other));
  }

  /** The ids of the tag table's rows, in storage order. */
  function TagIds(tags: seq<Tag>): (r: seq<string>)
    ensures |r| == |tags| && forall i :: 0 <= i < |r| ==> r[i] == tags[i].id
  {
    seq(|tags|, i requires 0 <= i < |tags| => tags[i].id)
  }

  /** With distinct tag ids in the tag table, a ticket whose tags were replaced by `tagIds`,
      all of them existing tags, reads back exactly those tags in that order, whatever it had before. */
  lemma UpdatedTagsReadBack(links: seq<TicketTag>, tags: seq<Tag>, id: string, tagIds: seq<string>, now: nat)
    requires forall i, j :: 0 <= i < j < |tags| ==> tags[i].id != tags[j].id
    requires forall x :: x in tagIds ==> x in TagIds(tags)
    ensures |TagsOf(ReplacedLinks(links, id, tagIds, now), tags, id)| == |tagIds|
    ensures forall i :: 0 <= i < |tagIds| ==> TagsOf(ReplacedLinks(links, id, tagIds, now), tags, id)[i].id == tagIds[i]
  {
    ReplacedLinksOfTicket(links, id, tagIds, now);
    var rows := LinkRows(id, tagIds, now);
    forall l | l in rows ensures l.tagId.Some? && l.tagId.value in TagIds(tags) {
      var k :| 0 <= k < |rows| && rows[k] == l;
      assert tagIds[k] in tagIds;
    }
    JoinOfResolvedLinks(rows, tags);
  }

  /** Links that each name an existing tag of a table with distinct ids join to one row each, in order. */
  lemma {:induction false} JoinOfResolvedLinks(links: seq<TicketTag>, tags: seq<Tag>)
    requires forall i, j :: 0 <= i < j < |tags| ==> tags[i].id != tags[j].id
    requires forall l :: l in links ==> l.tagId.Some? && l.tagId.value in TagIds(tags)
    ensures |JoinTags(links, tags)| == |links|
    ensures forall i :: 0 <= i < |links| ==> JoinTags(links, tags)[i].id == links[i].tagId.value
    decreases |links|
  {
    if links != [] {
      assert links[0] in links;
      OneRowPerExistingTag(links[0], tags, links[0].tagId.value);
      assert forall l :: l in links[1..] ==> l in links;
      JoinOfResolvedLinks(links[1..], tags);
    }
  }

  lemma {:induction false} OneRowPerExistingTag(l: TicketTag, tags: seq<Tag>, x: string)
    requires l.tagId == Some(x)
    requires forall i, j :: 0 <= i < j < |tags| ==> tags[i].id != tags[j].id
    requires x in TagIds(tags)
    ensures |RowsOfLink(l, tags)| == 1 && RowsOfLink(l, tags)[0].id == x
    decreases |tags|
  {
    if tags[0].id == x {
      forall t | t in tags[1..] ensures t.id != x {
        var k :| 0 <= k < |tags[1..]| && tags[1..][k] == t;
        assert tags[k + 1] == t;
      }
      NoRowForMissingTag(l, tags[1..], x);
    } else {
      var k :| 0 <= k < |tags| && TagIds(tags)[k] == x;
      assert TagIds(tags[1..])[k - 1] == x;
      OneRowPerExistingTag(l, tags[1..], x);
    }
  }

  lemma {:induction false} NoRowForMissingTag(l: TicketTag, tags: seq<Tag>, x: string)
    requires l.tagId == Some(x)
    requires forall t :: t in tags ==> t.id != x
    ensures RowsOfLink(l, tags) == []
    decreases |tags|
  {
    if tags != [] { NoRowForMissingTag(l, tags[1..], x); }
  }

  /** ticket.update as the code is written. `oldAssignedTo` is read first; when no ticket has the
      id it is `undefined`, the UPDATE matches nothing, the tag links are still deleted and
      re-inserted, and only then does `oldAssignedTo.id` throw. */
  method UpdateAsWritten(db: Db, caller: Caller, input: UpdateInput, notificationId: string, now: nat)
    returns (r: Result<Ticket>)
    modifies db`tickets, db`ticketTags, db`notifications
    ensures !HasUserId(caller) ==> r == Err(Unauthorized) && unchanged(db)
    ensures HasUserId(caller) ==> db.tickets == UpdateWhereId(old(db.tickets), input.id, EditOf(input.fields), now)
    ensures HasUserId(caller) ==>
              db.ticketTags == if input.fields.tags.None? then old(db.ticketTags)
                               else ReplacedLinks(old(db.ticketTags), input.id, input.fields.tags.value, now)
    ensures HasUserId(caller) && WithId(old(db.tickets), input.id) == [] ==>
              r == Err(InternalServerError) && db.notifications == old(db.notifications)
    ensures HasUserId(caller) && WithId(old(db.tickets), input.id) != [] ==>
              var previous := WithId(old(db.tickets), input.id)[0].assignedTo;
              r.Ok? && r.value in db.tickets && r.value.id == input.id &&
              db.notifications == old(db.notifications) +
                (if previous != input.fields.assignedTo && Truthy(input.fields.assignedTo)
                 then [AssignmentNotice(notificationId, input.fields.assignedTo.value, input.fields.title, input.id, now)]
                 else [])
  {
    if !HasUserId(caller) {
      return Err(Unauthorized);
    }
    var id, fields := input.id, input.fields;
    var previous := WithId(db.tickets, id);
    var updated := db.UpdateTicket(id, EditOf(fields), now);
    if fields.tags.Some? {
      ReplaceTags(db, id, fields.tags.value, now);
    }
    if previous == [] {
      return Err(InternalServerError);
    }
    UpdateKeepsTheRow(old(db.tickets), id, EditOf(fields), now);
    assert updated[0] in db.tickets;
    NotifyReassignment(db, previous[0].assignedTo, fields, notificationId, id, now);
    r := Ok(updated[0]);
  }

  /** The notice of ticket.update: sent to the new assignee only when the assignee changed to a
      non-empty id. */
  method NotifyReassignment(db: Db, previous: Option<string>, fields: TicketInput, notificationId: string, id: string, now: nat)
    modifies db`notifications
    ensures db.notifications == old(db.notifications) +
              (if previous != fields.assignedTo && Truthy(fields.assignedTo)
               then [AssignmentNotice(notificationId, fields.assignedTo.value, fields.title, id, now)]
               else [])
  {
    if previous != fields.assignedTo {
      if Truthy(fields.assignedTo) {
        db.InsertNotification(AssignmentNotice(notificationId, fields.assignedTo.value, fields.title, id, now));
      }
    }
  }

  /** The tag links of ticket.update: delete the ticket's links, then insert one per tag id when
      there are any. */
  method ReplaceTags(db: Db, id: string, tagIds: seq<string>, now: nat)
    modifies db`ticketTags
    ensures db.ticketTags == ReplacedLinks(old(db.ticketTags), id, tagIds, now)
  {
    db.DeleteTicketTags(id);
    if |tagIds| > 0 {
      var _ := db.InsertTicketTags(LinkRows(id, tagIds, now));
    }
  }

  /** ticket.update answering NOT_FOUND before any write when no ticket has the id; otherwise the
      code as written: the row is edited, the tag set replaced when `tags` is given, and an
      assignment notice sent to the new assignee only when the assignee changed to a non-empty id. */
  method Update(db: Db, caller: Caller, input: UpdateInput, notificationId: string, now: nat)
    returns (r: Result<Ticket>)
    modifies db`tickets, db`ticketTags, db`notifications
    ensures !HasUserId(caller) ==> r == Err(Unauthorized) && unchanged(db)
    ensures HasUserId(caller) && WithId(old(db.tickets), input.id) == [] ==> r == Err(NotFound) && unchanged(db)
    ensures HasUserId(caller) && WithId(old(db.tickets), input.id) != [] ==>
              var previous := WithId(old(db.tickets), input.id)[0].assignedTo;
              r.Ok? && r.value in db.tickets && r.value.id == input.id &&
              db.tickets == UpdateWhereId(old(db.tickets), input.id, EditOf(input.fields), now) &&
              db.ticketTags == (if input.fields.tags.None? then old(db.ticketTags)
                                else ReplacedLinks(old(db.ticketTags), input.id, input.fields.tags.value, now)) &&
              db.notifications == old(db.notifications) +
                (if previous != input.fields.assignedTo && Truthy(input.fields.assignedTo)
                 then [AssignmentNotice(notificationId, input.fields.assignedTo.value, input.fields.title, input.id, now)]
                 else [])
    ensures forall n :: n in db.notifications && n !in old(db.notifications) ==>
              HasUserId(caller) && Some(n.userId) == input.fields.assignedTo && n.kind == "ticket_assigned" &&
              Some(n.userId) != WithId(old(db.tickets), input.id)[0].assignedTo
  {
    if HasUserId(caller) && WithId(db.tickets, input.id) == [] {
      return Err(NotFound);
    }
    r := UpdateAsWritten(db, caller, input, notificationId, now);
  }

  /** A concrete run of the code as written: a signed-in user updates a ticket id that does not
      exist, without tags; no row is written, and the read of the old assignee of no row fails
      with an internal error instead of NOT_FOUND. */
  method UpdateMissingTicketExample() returns (db: Db, r: Result<Ticket>)
    ensures r == Err(InternalServerError)
    ensures db.tickets == [] && db.ticketTags == [] && db.notifications == []
  {
    db := new Db([User("u1", "Ann", "ann@example.com", None)], [], [], [], [], [], []);
    var fields := TicketInput("T", "", OPEN, None, None, None, None, None);
    r := UpdateAsWritten(db, Some("u1"), UpdateInput("t1", fields), "n1", 7);
  }

  // ---------------------------------------------------------------- updateStatus

  datatype StatusItem = StatusItem(id: string, status: int)

  /** The table after the single-row updates for `items`, one after the other. */
  function ApplyStatuses(tickets: seq<Ticket>, items: seq<StatusItem>, now: nat): (r: seq<Ticket>)
    ensures |r| == |tickets|
    decreases |items|
  {
    if items == [] then tickets
    else
      var last := items[|items| - 1];
      UpdateWhereId(ApplyStatuses(tickets, items[..|items| - 1], now), last.id, StatusOnly(last.status), now)
  }

  /** The status of the last pair naming `id`. */
  function LastStatusFor(items: seq<StatusItem>, id: string): Option<int>
    decreases |items|
  {
    if items == [] then None
    else if items[|items| - 1].id == id then Some(items[|items| - 1].status)
    else LastStatusFor(items[..|items| - 1], id)
  }

  /** Each listed ticket ends with the status of its last pair and a fresh `updatedAt`;
      every other ticket, and every other field, is as before. */
  lemma {:induction false} StatusesAfterUpdate(tickets: seq<Ticket>, items: seq<StatusItem>, now: nat)
    ensures forall i :: 0 <= i < |tickets| ==>
              ApplyStatuses(tickets, items, now)[i] ==
                match LastStatusFor(items, tickets[i].id)
                case None => tickets[i]
                case Some(s) => tickets[i].(status := s, updatedAt := now)
    decreases |items|
  {
    if items != [] {
      StatusesAfterUpdate(tickets, items[..|items| - 1], now);
    }
  }

  /** ticket.updateStatus: one UPDATE per pair, in order; the input is echoed back. */
  method UpdateStatus(db: Db, caller: Caller, items: seq<StatusItem>, now: nat) returns (r: Result<seq<StatusItem>>)
    modifies db`tickets
    ensures !HasUserId(caller) ==> r == Err(Unauthorized) && unchanged(db)
    ensures HasUserId(caller) ==> r == Ok(items) && db.tickets == ApplyStatuses(old(db.tickets), items, now)
  {
    if !HasUserId(caller) {
      return Err(Unauthorized);
    }
    var i := 0;
    while i < |items|
      invariant 0 <= i <= |items|
      invariant db.tickets == ApplyStatuses(old(db.tickets), items[..i], now)
    {
      assert items[..i + 1][..i] == items[..i];
      var _ := db.UpdateTicket(items[i].id, StatusOnly(items[i].status), now);
      i := i + 1;
    }
    assert items[..|items|] == items;
    r := Ok(items);
  }
}
