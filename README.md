# Ticket CRM core in Dafny

A model of the core of a small ticket-tracking CRM (Next.js, tRPC, drizzle on Postgres),
written in Dafny and verified. It covers:

- the ticket, comment and notification procedures of the tRPC routers. The database is a
  class `Store.Db` whose tables are sequences, with one method per drizzle statement the
  procedures issue.
- the mention machinery of the comment editor: the `<userId>` marker regex, the extraction of
  mentioned ids, the raw ⇄ display conversions, the popup trigger and its user filter, and the
  state of the mention textarea.
- the rendering of a comment body with highlighted mentions, and the submit guard and reset
  of the comment form.
- the tag picker's list operations.
- the route guard that redirects between the login and dashboard pages.
- the status and priority enumerations, their labels and the ticket column defaults.

Modules follow the source files:

- `Wrappers`, `Seqs`: `Option` and generic sequence functions (filter, insertion sort, page,
  `indexOf`, `replace`, `lastIndexOf`, `slice`).
- `Schema`: lib/schema/index.ts.
- `Rpc`: the caller and the error codes.
- `Store`: the tables and the statements.
- `TicketRouter`, `CommentRouter`, `NotificationRouter`: trpc/routers.
- `Mentions`, `MentionInputComponent`: components/mention-input.tsx.
- `TicketComments`: components/ticket-comments.tsx.
- `TagsInput`: components/tags-input.tsx.
- `Proxy`: proxy.ts.

Modelling choices:

- **Caller.** The caller of a procedure is an optional user id. Write procedures reject a
  missing or empty id (`!ctx.user?.id`). `notification.list` rejects only a missing user.
- **Generated values.** Ids from `crypto.randomUUID()` and timestamps from `defaultNow()` are
  parameters.
- **Errors.** A thrown error is a `Result` error code. An exception the code does not catch
  (a `TypeError`, a driver error) reaches the client as `InternalServerError`. Writes issued
  before it stay, because the procedures use no transaction.
- **SQL ORDER BY.** An insertion sort over a total comparator built from the kept sort keys.
  Text compares by code points, and NULL sorts as the largest value.
- **Regex loops.** A `while (regex.exec(...))` loop is a method with a loop. It is proved
  equal to a function over a tokenization `Mentions.Pieces`: text runs and markers, matched
  leftmost and greedily as the `g` regex does.
- **Ticket dates.** The ticket table of lib/schema/index.ts:35-52 declares no `startDate` or
  `dueDate` column, yet trpc/routers/ticket.ts reads, sorts on and writes `ticket.startDate` and
  `ticket.dueDate`. The model assumes two nullable timestamp columns of those names.
- **React state.** State held in `useState` is a class field. Each handler is a method. The
  value a handler hands to `onChange` or `onValueChange` is the method's result, `None` when
  nothing is emitted.

## Model

| member | source | states |
|---|---|---|
| Schema.StatusLabel | lib/schema/index.ts:29-33 | a status has a label exactly when it is one of STATUS_VALUES |
| Schema.PriorityLabel | lib/schema/index.ts:22-27 | a priority has a label exactly when it is one of PRIORITY_VALUES |
| Schema.EnumerationsAreExact | lib/schema/index.ts:6-20 | STATUS_VALUES is exactly {0,1,2}, PRIORITY_VALUES exactly {0,1,2,3}, with no repeats |
| Schema.LabelsAreDistinct | lib/schema/index.ts:22-33 | two different statuses (priorities) never share a label |
| Schema.TicketRow | lib/schema/index.ts:35-52 | an inserted ticket keeps every given column; an omitted description, status or priority takes its default; both timestamps are the insertion time |
| Schema.NewTicketDefaults | lib/schema/index.ts:39-45 | a ticket inserted with only id, title and creator is OPEN, LOW priority, with empty description and no assignee |
| Schema.FindUser | components/mention-input.tsx:52 | `users.find` by id: the result is a row of the list with that id, and none means no row has it |
| Store.Changed | trpc/routers/ticket.ts:249-261 | an edited row keeps id, creator and creation time and takes `now` as updatedAt (`$onUpdate`); a status-only change alters nothing else |
| Store.UpdateWhereId | trpc/routers/ticket.ts:249-261 | `UPDATE ... WHERE id = ?` changes exactly the rows with that id, in place, and keeps all others |
| Store.WithId | trpc/routers/ticket.ts:243-247 | the rows selected by id are exactly the table's rows with that id |
| Store.UpdateKeepsTheRow | trpc/routers/ticket.ts:249-261 | an update where a row matched returns a row |
| Store.MarkedRead | trpc/routers/notification.ts:31-34 | marking read sets isRead on exactly the rows with the id, positions and other rows unchanged |
| Store.Db.InsertTicket | trpc/routers/ticket.ts:187-200 | the ticket table gains exactly the new row at its end |
| Store.Db.InsertTicketTags | trpc/routers/ticket.ts:203-208 | appends the link rows; the statement reports failure exactly for an empty batch (drizzle refuses `values([])`) |
| Store.Db.DeleteTicketTags | trpc/routers/ticket.ts:264 | removes exactly the links of the ticket, others kept in order |
| Store.Db.UpdateTicket | trpc/routers/ticket.ts:249-261 | the ticket table is updated by id and the statement returns the updated rows |
| Store.Db.InsertNotification | trpc/routers/ticket.ts:212-218 | the notification table gains exactly the new row |
| Store.Db.MarkNotificationRead | trpc/routers/notification.ts:31-34 | the notification table becomes its marked-read version |
| Store.Db.InsertComment | trpc/routers/comment.ts:44-49 | the comment table gains exactly the new row |
| Store.Db.InsertCommentMentions | trpc/routers/comment.ts:53-58 | appends the mention rows; reports failure exactly for an empty batch |
| TicketRouter.ColumnNamed | trpc/routers/ticket.ts:64-74 | a name has a sortable column exactly when it is one of the nine whitelisted names |
| TicketRouter.KeyOf | trpc/routers/ticket.ts:79-82 | a kept entry sorts on its named column, descending exactly when `desc` is set |
| TicketRouter.SortKeys | trpc/routers/ticket.ts:76-83 | null sorting gives no keys (corrected whitelist) |
| TicketRouter.KeysAreKnownEntriesInOrder | trpc/routers/ticket.ts:76-83 | the keys are, in input order, exactly the entries with whitelisted names, each with its column and direction; an all-known input keeps every entry (corrected whitelist) |
| TicketRouter.KeysOfAppend | trpc/routers/ticket.ts:76-83 | the keys of a concatenation are the concatenation of the keys |
| TicketRouter.UnknownNameIsDropped | trpc/routers/ticket.ts:78 | an entry with an unknown name is dropped without error and without affecting the others (corrected whitelist: an inherited name such as "toString" is dropped too) |
| TicketRouter.EntryAsWritten | trpc/routers/ticket.ts:78-82 | as written, the JS `in` test keeps every name and maps only whitelisted ones to a column |
| TicketRouter.InheritedNamePassesTheWhitelist | trpc/routers/ticket.ts:78 | "toString" passes `in sortableColumns` though it names no column; the corrected whitelist drops it |
| TicketRouter.CompareText | trpc/routers/ticket.ts:99 | text order has three outcomes and is 0 exactly on equal texts |
| TicketRouter.CompareTextAntisymmetric | trpc/routers/ticket.ts:99 | swapping two texts negates their comparison |
| TicketRouter.CompareValues | trpc/routers/ticket.ts:99 | a column comparison has three outcomes |
| TicketRouter.CompareValuesAntisymmetric | trpc/routers/ticket.ts:99 | swapping two column values negates their comparison |
| TicketRouter.CompareBy | trpc/routers/ticket.ts:99 | the multi-key ORDER BY comparison has three outcomes |
| TicketRouter.CompareByAntisymmetric | trpc/routers/ticket.ts:99 | swapping two tickets negates their comparison under any keys |
| TicketRouter.RowOrderIsTotal | trpc/routers/ticket.ts:99 | the ORDER BY relation relates every pair of rows |
| TicketRouter.JoinUsers | trpc/routers/ticket.ts:44-46 | the inner join with the creator keeps exactly the tickets whose creator exists, each paired with its creator and its left-joined assignee |
| TicketRouter.WhereMeansFilters | trpc/routers/ticket.ts:86-95 | a ticket passes iff an absent status filter or its status matches, and an absent priority filter or its priority matches |
| TicketRouter.RowsOfLink | trpc/routers/ticket.ts:115 | each row of the tag join carries its link's ticket id |
| TicketRouter.Refs | trpc/routers/ticket.ts:128-131 | each tag row becomes its `{id, name}`, in order |
| TicketRouter.JoinTagsAppend | trpc/routers/ticket.ts:108-121 | the tag join distributes over concatenation of links |
| TicketRouter.FilterJoinTags | trpc/routers/ticket.ts:108-127 | picking one ticket's rows after the join equals joining that ticket's links |
| TicketRouter.BatchedTagsAreTagsOf | trpc/routers/ticket.ts:108-132 | for a ticket of the page, its rows of the batched `inArray` query are exactly its own tags |
| TicketRouter.DuplicateLinksAreKept | trpc/routers/ticket.ts:124-131 | two identical links give the tag twice (ticket_tag has no uniqueness) |
| TicketRouter.ViewOf | trpc/routers/ticket.ts:22-43 | the selected view keeps the ticket's fields, the creator and the given tags |
| TicketRouter.PageIds | trpc/routers/ticket.ts:119 | the ids of the page, in order |
| TicketRouter.Hydrate | trpc/routers/ticket.ts:124-132 | one view per page row, in page order, each with the batch rows of its own id |
| TicketRouter.HydratedTagsAreTagsOf | trpc/routers/ticket.ts:97-132 | the i-th returned ticket is the (offset+i)-th ordered row with exactly its linked tags |
| TicketRouter.List | trpc/routers/ticket.ts:61-136 | pageIndex/pageSize echo with defaults 0/10; totalCount counts the filtered tickets, independently of the page; the page has at most pageSize rows, starts at pageIndex·pageSize and each row carries its own tags (corrected whitelist) |
| TicketRouter.OrderedIsSortedSelection | trpc/routers/ticket.ts:97-99 | the ordered rows are a permutation of the joined filtered tickets, sorted by the kept keys, each a filtered ticket |
| TicketRouter.CountMatchesRows | trpc/routers/ticket.ts:97-106 | when every creator exists, totalCount equals the number of rows the page is cut from |
| TicketRouter.UnknownSortNameIsNoOp | trpc/routers/ticket.ts:76-83 | adding an unknown sort name anywhere leaves the whole result unchanged (corrected whitelist) |
| TicketRouter.SameKeysSameList | trpc/routers/ticket.ts:76-101 | two sort inputs with the same kept keys give the same result (corrected whitelist) |
| TicketRouter.Get | trpc/routers/ticket.ts:145-166 | NotFound iff no joined ticket has the id; otherwise that ticket's view with exactly its linked tags |
| TicketRouter.LinkRows | trpc/routers/ticket.ts:204-207 | one link per tag id, in order, to the ticket |
| TicketRouter.CreateAsWritten | trpc/routers/ticket.ts:182-221 | as written: Unauthorized without a user and no change; the ticket row is inserted; with `tags == []` the link insert throws after it, so the call fails and no notification is sent |
| TicketRouter.Create | trpc/routers/ticket.ts:182-221 | one ticket created by the caller, one link per given tag, and one ticket_assigned notification exactly when assignedTo is non-empty |
| TicketRouter.CreateWithEmptyTagsExample | trpc/routers/ticket.ts:202-209 | a concrete create with `tags: []`, by and for existing users, stores the ticket and still fails, with no notification |
| TicketRouter.ReplacedLinksOfTicket | trpc/routers/ticket.ts:263-274 | after replacement the ticket's links are exactly the given ones, in order |
| TicketRouter.ReplacedLinksOfOtherTicket | trpc/routers/ticket.ts:263-274 | replacing one ticket's links leaves every other ticket's links unchanged |
| TicketRouter.UpdatedTagsReadBack | trpc/routers/ticket.ts:263-274 | after replacement, reading the ticket's tags gives back the given tag ids in order |
| TicketRouter.JoinOfResolvedLinks | trpc/routers/ticket.ts:115 | links to existing, distinct tags join one row each, in order |
| TicketRouter.OneRowPerExistingTag | trpc/routers/ticket.ts:115 | a link to an existing tag joins exactly one row |
| TicketRouter.NoRowForMissingTag | trpc/routers/ticket.ts:115 | a link to a missing tag joins none |
| TicketRouter.UpdateAsWritten | trpc/routers/ticket.ts:238-288 | as written: the row is updated and the links are replaced when tags are given; a missing id updates no row and ends in an internal error (500) instead of NOT_FOUND, with no notification |
| TicketRouter.NotifyReassignment | trpc/routers/ticket.ts:276-286 | a notification to the new assignee exactly when it differs from the old one and is non-empty |
| TicketRouter.ReplaceTags | trpc/routers/ticket.ts:263-274 | delete then insert: the links become the replaced links |
| TicketRouter.Update | trpc/routers/ticket.ts:238-288 | Unauthorized or NotFound without change; otherwise the row is updated, links untouched for null tags or replaced exactly, and any new notification goes to the new non-empty assignee, never to the old one |
| TicketRouter.UpdateMissingTicketExample | trpc/routers/ticket.ts:243-276 | a concrete update of a missing id, without tags, on a store holding the caller: no ticket, link or notification is written, and the call fails with an internal error instead of NOT_FOUND |
| TicketRouter.ApplyStatuses | trpc/routers/ticket.ts:307-312 | the status loop keeps the number of tickets |
| TicketRouter.StatusesAfterUpdate | trpc/routers/ticket.ts:307-312 | each listed ticket ends with the status of its last pair and a new updatedAt; other tickets are unchanged |
| TicketRouter.UpdateStatus | trpc/routers/ticket.ts:300-313 | Unauthorized without change, or the pairs applied in order and the input returned as is |
| CommentRouter.JoinAuthors | trpc/routers/comment.ts:12-24 | the inner join with the author keeps exactly the comments whose author exists, with that author |
| CommentRouter.ListIsTicketComments | trpc/routers/comment.ts:12-25 | list returns only comments of the ticket, every such comment whose author exists, and all of them when all authors exist |
| CommentRouter.MentionRows | trpc/routers/comment.ts:52-58 | one mention row per id, in order, duplicates kept |
| CommentRouter.Create | trpc/routers/comment.ts:36-62 | Unauthorized without change; otherwise one comment with the body, ticket and caller, its mention rows, the fresh id returned, and no other table touched |
| CommentRouter.MentionsOfAppend | trpc/routers/comment.ts:52-59 | the mentions of a comment distribute over concatenated rows |
| CommentRouter.MentionsOfRows | trpc/routers/comment.ts:52-59 | the inserted rows read back as exactly the given ids |
| CommentRouter.CreatedMentionsReadBack | trpc/routers/comment.ts:41-59 | after create, the new comment's mentions are exactly the given ids, in order; an empty list gives none |
| CommentRouter.NoMentionsOfFreshComment | trpc/routers/comment.ts:41 | a fresh comment id has no mentions before the insert |
| NotificationRouter.Views | trpc/routers/notification.ts:14-22 | one selected view per row, in order |
| NotificationRouter.List | trpc/routers/notification.ts:9-26 | Unauthorized exactly without a user; otherwise the views of the caller's rows newest first |
| NotificationRouter.RowsAreUsersNewestFirst | trpc/routers/notification.ts:24-25 | the rows are exactly the caller's notifications, ordered by createdAt descending |
| NotificationRouter.MarkAsRead | trpc/routers/notification.ts:28-35 | only the rows with the id change, and only their isRead; no ownership check |
| NotificationRouter.MarkTwiceIsMarkOnce | trpc/routers/notification.ts:31-34 | marking read is idempotent |
| NotificationRouter.MarkUnknownIsNoOp | trpc/routers/notification.ts:31-34 | an unknown id changes nothing |
| NotificationRouter.MarkedRowsAreRead | trpc/routers/notification.ts:31-34 | matched rows are read, others unchanged, unread count never grows |
| NotificationRouter.UnreadNeverGrows | trpc/routers/notification.ts:31-34 | marking read never increases the number of unread rows |
| Mentions.RunEnd | components/mention-input.tsx:31 | the greedy `[a-zA-Z0-9_-]+` run ends at the first non-id character |
| Mentions.MarkerEndAt | components/mention-input.tsx:31 | a match found at a position is a well-formed marker |
| Mentions.MarkerEndAtComplete | components/mention-input.tsx:31 | every well-formed marker at a position is the match there |
| Mentions.NextMatch | components/mention-input.tsx:31 | `exec` finds a marker at or after lastIndex, inside the text |
| Mentions.NextMatchIsLeftmost | components/mention-input.tsx:31 | no marker starts before the match `exec` finds |
| Mentions.MatchIsMarkerText | components/mention-input.tsx:31 | a match reads `<` id `>` |
| Mentions.PiecesSpellTheText | components/mention-input.tsx:92 | the tokens of the exec loop spell the text |
| Mentions.PiecesAreWellFormed | components/mention-input.tsx:92 | tokens are non-empty text or markers with valid ids, no two texts adjacent; no tokens only for empty text |
| Mentions.IdsOf | components/mention-input.tsx:93 | the ids are exactly those of the marker tokens |
| Mentions.EveryMarkerIsMatched | components/mention-input.tsx:92-97 | every well-formed marker after lastIndex is a token |
| Mentions.MarkerIdsAreSound | components/mention-input.tsx:87-100 | each extracted id is a non-empty `[A-Za-z0-9_-]` string occurring as `<id>` |
| Mentions.MarkerIdsAreComplete | components/mention-input.tsx:87-100 | each well-formed marker's id is extracted; text without markers yields none |
| Mentions.NoMarkerPieceWithoutMatch | components/mention-input.tsx:92-97 | every marker token comes from a well-formed marker in the text |
| Mentions.Dedup | components/mention-input.tsx:94-96 | same elements, no duplicates |
| Mentions.DedupSnoc | components/mention-input.tsx:94-96 | one push step: an id is appended only when not yet present |
| Mentions.DedupKeepsFirstSeenOrder | components/mention-input.tsx:94-96 | ids appear in the order of their first occurrence |
| Mentions.ExtractStep | components/mention-input.tsx:92-97 | one loop turn consumes the next match and pushes its id unless present |
| Mentions.ExtractMentionedUserIds | components/mention-input.tsx:87-100 | the distinct marker ids, first-seen order, exactly the ids of the text's markers |
| Mentions.DisplayValue | components/mention-input.tsx:49-55 | without loaded users, the raw value unchanged |
| Mentions.ShownWithoutKnownIds | components/mention-input.tsx:51-54 | unknown markers are shown literally |
| Mentions.DisplayValueOfUnknownMarkers | components/mention-input.tsx:49-55 | a raw value whose markers are all unknown is shown as is |
| Mentions.DisplayToRaw | components/mention-input.tsx:58-84 | the loop computes the raw-conversion function |
| Mentions.CollectRawMentions | components/mention-input.tsx:63-71 | collects, in match order, the known users of the markers of the current raw value |
| Mentions.ReplaceMentions | components/mention-input.tsx:74-79 | applies one first-occurrence replace per mention, in order |
| Mentions.CollectStep | components/mention-input.tsx:66-71 | one loop turn pushes the user of the matched marker, when known |
| Mentions.ToRawWithoutKnownMarkers | components/mention-input.tsx:66-71 | no known marker collects no mention |
| Mentions.ToRawIsIdentityWithoutKnownMarkers | components/mention-input.tsx:58-84 | without loaded users or known markers the display text is returned unchanged |
| Mentions.FirstOccurrenceAfterPrefix | components/mention-input.tsx:78 | under the side conditions, the first `@Name` is the one just shown |
| Mentions.ReplaceAfterPrefix | components/mention-input.tsx:78 | `replace` then rewrites exactly that occurrence |
| Mentions.RoundTripPieces | components/mention-input.tsx:49-84 | the round trip holds for any token suffix |
| Mentions.RoundTrip | components/mention-input.tsx:49-84 | displayToRaw(displayValue(raw), raw) == raw when no mentioned name contains `@` and no `@Name` of a mentioned user occurs in raw |
| Mentions.RoundTripNeedsNamesWithoutAt | components/mention-input.tsx:49-84 | a user named "@": raw "@<u>" shows as "@@@" and converts back to "<u>@" |
| Mentions.TriggerMeaning | components/mention-input.tsx:129-143 | the popup opens iff some `@` before the cursor is at the start or after a space or newline, is the last `@` and has no space after it; the search is the text after it |
| Mentions.Lower | components/mention-input.tsx:113-115 | ASCII lower-casing, length kept |
| Mentions.FilteredUsers | components/mention-input.tsx:109-117 | no users loaded: none; empty search: all; otherwise the users, in order, whose name or email contains the search, case-insensitively |
| MentionInputComponent.MentionInput.HandleInputChange | components/mention-input.tsx:119-150 | stores the cursor, hands over the raw conversion of the new text, and opens the popup exactly per the trigger rule with its start and search, else closes and clears it |
| MentionInputComponent.MentionInput.HandleSelectUser | components/mention-input.tsx:152-181 | nothing without a started mention; else hands over raw(before `@`) + `<id> ` + raw(after cursor), closes the popup and places the caret after `@Name ` |
| MentionInputComponent.MentionInput.HandleKeyDown | components/mention-input.tsx:183-193 | with the popup open, Escape closes it keeping the start index, Enter selects the first listed user; otherwise nothing changes |
| MentionInputComponent.SelectedUserIsMentioned | components/mention-input.tsx:152-169 | the raw value handed over by a selection contains the user's id among its extracted mentions |
| TicketComments.RenderAppend | components/ticket-comments.tsx:50-75 | the rendering of concatenated tokens is the concatenation, keys shifted |
| TicketComments.RenderFromIsRender | components/ticket-comments.tsx:50-75 | the parts from lastIndex on are the rendering of the tokens from there |
| TicketComments.RenderTurn | components/ticket-comments.tsx:50-69 | one loop turn pushes the text before the match if any, then the highlight keyed by the match index |
| TicketComments.RenderTail | components/ticket-comments.tsx:73-75 | the remaining text is pushed only when non-empty |
| TicketComments.RenderCommentBody | components/ticket-comments.tsx:44-78 | the loop computes the rendering function of the body |
| TicketComments.PartsTextOfRender | components/ticket-comments.tsx:44-78 | the parts read as the display text of the tokens |
| TicketComments.RenderedReadsAsDisplayValue | components/ticket-comments.tsx:44-78 | the rendered comment reads exactly as the mention input's display value |
| TicketComments.RenderIsEmptyOnlyForEmptyPieces | components/ticket-comments.tsx:44-78 | one part per token |
| TicketComments.RenderedBodyOnlyWhenEmpty | components/ticket-comments.tsx:77 | the body itself is returned only for the empty body |
| TicketComments.HighlightsOfRender | components/ticket-comments.tsx:56-68 | one highlight per marker token |
| TicketComments.OneHighlightPerMarker | components/ticket-comments.tsx:50-70 | a highlight for every marker match, known user or not |
| TicketComments.RenderIsLaidOut | components/ticket-comments.tsx:50-75 | highlight keys increase, text parts are non-empty and never adjacent |
| TicketComments.RenderedKeysAreDistinct | components/ticket-comments.tsx:63 | React keys of the highlights are distinct |
| TicketComments.RenderWithoutMarkers | components/ticket-comments.tsx:73-77 | a non-empty body without markers renders as one text part |
| TicketComments.RawOfRenderFrom | components/ticket-comments.tsx:50-75 | the parts pushed from an index on, each highlight put back as the marker at its key, spell the body from that index on |
| TicketComments.RenderSpellsTheBody | components/ticket-comments.tsx:44-78 | nothing of the body is lost: the text parts and the markers of the highlights, in order, reproduce the body |
| TicketComments.Trim | components/ticket-comments.tsx:146 | `trim()` is empty iff all characters are JS whitespace, else it starts and ends with non-space |
| TicketComments.CommentForm.constructor | components/ticket-comments.tsx:114-117 | empty body, no mentions, not pending |
| TicketComments.CommentForm.OnBodyChange | components/ticket-comments.tsx:120-122 | the body is set and the mention ids follow it |
| TicketComments.CommentForm.SubmitDisabled | components/ticket-comments.tsx:146 | disabled iff pending or the body is all whitespace |
| TicketComments.CommentForm.HandleSubmit | components/ticket-comments.tsx:124-126 | sends ticket id, body and mention ids, the ids being the distinct marker ids of the body; the mutation is pending and the form stays consistent |
| TicketComments.CommentForm.OnSuccess | components/ticket-comments.tsx:128-130 | body and mentions are cleared |
| TicketComments.CommentForm.OnError | components/ticket-comments.tsx:114-135 | a failed post only ends pending; the text and its mention ids are kept and stay consistent |
| TicketComments.SubmittedIdsAreTheBodysMarkers | components/ticket-comments.tsx:120-126 | the sent ids are distinct, are valid ids and are exactly the body's marker ids |
| TagsInput.HandleRemove | components/tags-input.tsx:28-33 | absent id: nothing emitted; else every occurrence removed, others kept in order and number |
| TagsInput.HandleSelect | components/tags-input.tsx:35-41 | a selected id behaves as remove; an unselected one is appended |
| TagsInput.OnTagCreated | components/tags-input.tsx:47-50 | the created id is appended after the current value |
| TagsInput.SelectFlipsMembership | components/tags-input.tsx:35-41 | selecting always emits and flips membership of that id only |
| TagsInput.RemoveAbsentKeeps | components/tags-input.tsx:32 | filtering out an absent id keeps the list |
| TagsInput.SelectTwiceRestores | components/tags-input.tsx:28-41 | selecting an unselected id twice restores the list |
| TagsInput.RemoveCreatedRestores | components/tags-input.tsx:28-50 | removing a freshly created tag undoes its creation |
| TagsInput.RemoveIsFinal | components/tags-input.tsx:28-33 | removing again emits nothing |
| Proxy.AnyPrefix | proxy.ts:14-17 | `some(startsWith)` iff some route is a prefix of the path |
| Proxy.IsProtectedRoute | proxy.ts:9-16 | protected iff the path starts with "/dashboard" |
| Proxy.IsAuthRoute | proxy.ts:12-17 | auth route iff the path starts with "/login" or "/signup" |
| Proxy.Guard | proxy.ts:4-32 | redirect to /login iff protected without session cookie; to /dashboard iff auth route with it; otherwise pass |
| Proxy.RoutesAreDisjoint | proxy.ts:9-17 | no path is both protected and an auth route |
| Proxy.NoRedirectLoop | proxy.ts:20-31 | the target of a redirect passes with the same cookies |
| Proxy.OnlyPresenceMatters | proxy.ts:5-26 | the decision depends only on whether the session cookie is present |

## Left out

- I/O, network and rendering: the HTTP layer, React rendering, toasts, query invalidation,
  the `setTimeout` that focuses the textarea (only the caret position it computes is kept),
  `console.log` calls, and the `matcher` routing configuration of proxy.ts.
- Concurrency and transactions: the procedures are modelled as sequential statements; two
  requests interleaving are not modelled.
- The session wiring of trpc/init.ts: the caller is a parameter.
- zod validation: inputs are typed values. `pageIndex`/`pageSize` are naturals, so negative or
  fractional numbers are not modelled.
- Dates: timestamps are naturals, `startDate`/`dueDate` optional naturals.
- Schema.TicketRow: assumes `startDate`/`dueDate` columns the schema file does not declare. As
  written, `ticket.startDate` and `ticket.dueDate` are `undefined`, so the selected fields are
  absent, sorting on those names builds `asc(undefined)`, and drizzle drops the values given to
  insert and update. None of that is modelled.
- TicketRouter.SortKeys: models the corrected whitelist. What ORDER BY does with an inherited
  name such as "toString" (an `asc` over a function, not a column) is not modelled.
- TicketRouter.Get, TicketRouter.List, TicketRouter.HydratedTagsAreTagsOf,
  TicketRouter.BatchedTagsAreTagsOf, TicketRouter.UpdatedTagsReadBack,
  TicketRouter.JoinOfResolvedLinks: a query without ORDER BY (the tag joins at
  trpc/routers/ticket.ts:108-121 and 154-161) returns its rows in insertion order, and so does a
  LIMIT/OFFSET page whose sort keys leave ties or are empty. Postgres leaves that order
  unspecified, so the "in order" parts of these contracts are stronger than the database
  guarantees. For the tag joins, the same tags come back in some order. For an under-ordered
  page, which of the tied rows fall on the page is also left to the database.
- Text positions: Dafny strings are sequences of Unicode scalar values, while JavaScript
  positions count UTF-16 code units (`selectionStart`, `lastIndexOf`, `slice`, the `match.index`
  keys, `user.name.length + 2`). The positions differ for text outside the Basic Multilingual
  Plane.
- Foreign keys: references to user, tag and ticket ids are not enforced by the store (the
  inner joins drop rows whose partner is missing). The two concrete examples,
  `TicketRouter.CreateWithEmptyTagsExample` and `TicketRouter.UpdateMissingTicketExample`, start
  from and write only states that the foreign keys of lib/schema/index.ts:44-45 and :65-66 admit.
- The full URL of a redirect: `Proxy.Guard` returns only the target path.
- The computed `newDisplayValue` of `handleSelectUser` is never used by the source and is not modelled.
- The kanban board, auth schema, user and tag routers are not part of this model.
- TicketRouter.OrderedIsSortedSelection: claims a sorted permutation only, not stability or the
  engine's NULL placement, which the code does not control.
- TicketRouter.CompareText: code-point order, not the database collation.
- Mentions.Lower: ASCII case folding only, where `toLowerCase` folds all of Unicode.
- Mentions.RoundTrip: proved under stronger conditions than "no literal @Name in raw, no `<`/`>`
  in names": user names must also contain no `@`. Without that it fails, as
  `Mentions.RoundTripNeedsNamesWithoutAt` exhibits.

## Findings

| source | as written | input that shows it | evidently intended | confidence | as-written member | corrected member |
|---|---|---|---|---|---|---|
| trpc/routers/ticket.ts:78 | `sort.id in sortableColumns` also accepts names inherited from `Object.prototype` | sorting `[{id: "toString", desc: false}]` passes the filter and maps to `asc(Object.prototype.toString)`, a function and not a column | only the nine column names are kept | not executed | TicketRouter.InheritedNamePassesTheWhitelist | TicketRouter.KeysAreKnownEntriesInOrder |
| trpc/routers/ticket.ts:243-276 | an update of an id with no ticket updates no row and then fails with a 500: reading `oldAssignedTo.id` of `undefined` throws a TypeError, or, when tags are given, the link insert violates the ticket_tag foreign key first | update `{id: "t1"}` without tags, by user u1, on an empty ticket table | NOT_FOUND with no change | not executed | TicketRouter.UpdateMissingTicketExample | TicketRouter.Update |
| trpc/routers/ticket.ts:202-209 | `if (input.tags)` is true for `[]`, and inserting an empty batch throws after the ticket row was stored | create with `tags: []` | the ticket created with no links, as `update` does with its `.length` guard | not executed | TicketRouter.CreateWithEmptyTagsExample | TicketRouter.Create |
