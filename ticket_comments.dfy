/** components/ticket-comments.tsx: how a comment body is rendered with its mentions
    highlighted, and the state of the comment form. */
module TicketComments {
  import opened Wrappers
  import opened Schema
  import Mentions
  import Seqs
  import CommentRouter

  // ================================================================ renderCommentBody

  /** A rendered part: plain text, or a highlighted `<span>` keyed by the index of its match. */
  datatype Part = Text(text: string) | Highlight(key: nat, shown: string)

  /** What `renderCommentBody` returns: the parts, or the body itself when there are none. */
  datatype Rendered = Parts(parts: seq<Part>) | Body(body: string)

  /** The part of one piece that starts at index `at` of the body. */
  function PartOf(p: Mentions.Piece, at: nat, users: seq<User>): Part {
    match p
    case Plain(t) => Text(t)
    case Marker(id) => Highlight(at, Mentions.DisplayName(users, id))
  }

  /** The parts of a sequence of pieces that starts at index `at` of the body. */
  function Render(ps: seq<Mentions.Piece>, at: nat, users: seq<User>): seq<Part>
    decreases |ps|
  {
    if ps == [] then []
    else [PartOf(ps[0], at, users)] + Render(ps[1..], at + Mentions.Width(ps[0]), users)
  }

  /** The parts the exec loop of `renderCommentBody` pushes from index `from` of the body on. */
  function RenderFrom(s: string, from: nat, users: seq<User>): seq<Part>
    requires from <= |s|
    decreases |s| - from
  {
    match Mentions.NextMatch(s, from)
    case None => if from < |s| then [Text(s[from..])] else []
    case Some(m) => StepParts(s, from, m, users) + RenderFrom(s, m.end, users)
  }

  /** The value `renderCommentBody(body, users)` computes. */
  function RenderSpec(body: string, users: seq<User>): Rendered {
    var parts := RenderFrom(body, 0, users);
    if |parts| > 0 then Parts(parts) else Body(body)
  }

  lemma {:induction false} RenderAppend(a: seq<Mentions.Piece>, b: seq<Mentions.Piece>, at: nat, users: seq<User>)
    ensures Render(a + b, at, users) == Render(a, at, users) + Render(b, at + Mentions.Span(a), users)
    decreases |a|
  {
    if a == [] {
      assert a + b == b;
    } else {
      RenderAppend(a[1..], b, at + Mentions.Width(a[0]), users);
      RenderAppendStep(a, b, at, users);
    }
  }

  lemma RenderAppendStep(a: seq<Mentions.Piece>, b: seq<Mentions.Piece>, at: nat, users: seq<User>)
    requires a != []
    requires var next := at + Mentions.Width(a[0]);
             Render(a[1..] + b, next, users) == Render(a[1..], next, users) + Render(b, next + Mentions.Span(a[1..]), users)
    ensures Render(a + b, at, users) == Render(a, at, users) + Render(b, at + Mentions.Span(a), users)
  {
    var next := at + Mentions.Width(a[0]);
    assert (a + b)[0] == a[0] && (a + b)[1..] == a[1..] + b;
    RenderCons(a + b, at, users);
    RenderCons(a, at, users);
    assert at + Mentions.Span(a) == next + Mentions.Span(a[1..]);
    Associate([PartOf(a[0], at, users)], Render(a[1..], next, users), Render(b, next + Mentions.Span(a[1..]), users));
  }

  lemma RenderCons(ps: seq<Mentions.Piece>, at: nat, users: seq<User>)
    requires ps != []
    ensures Render(ps, at, users) == [PartOf(ps[0], at, users)] + Render(ps[1..], at + Mentions.Width(ps[0]), users)
  {
  }

  lemma Associate(x: seq<Part>, y: seq<Part>, z: seq<Part>)
    ensures x + (y + z) == (x + y) + z
  {
  }

  lemma RenderOne(p: Mentions.Piece, at: nat, users: seq<User>)
    ensures Render([p], at, users) == [PartOf(p, at, users)]
  {
    assert [p][1..] == [];
  }

  /** The parts of one turn of the exec loop. */
  lemma RenderOfStep(s: string, pos: nat, m: Mentions.Match, users: seq<User>)
    requires pos <= m.start && m.start + 3 <= m.end <= |s|
    ensures Render(Mentions.Step(s, pos, m), pos, users) == StepParts(s, pos, m, users)
  {
    var marker := Mentions.Marker(s[m.start + 1..m.end - 1]);
    if pos < m.start {
      var plain := Mentions.Plain(s[pos..m.start]);
      assert Mentions.Step(s, pos, m) == [plain] + [marker];
      RenderAppend([plain], [marker], pos, users);
      Mentions.JoinOne(plain);
      RenderOne(plain, pos, users);
      RenderOne(marker, m.start, users);
    } else {
      assert Mentions.Step(s, pos, m) == [marker];
      RenderOne(marker, pos, users);
    }
  }

  /** The parts one turn of the exec loop pushes. */
  function StepParts(s: string, pos: nat, m: Mentions.Match, users: seq<User>): seq<Part>
    requires pos <= m.start && m.start + 3 <= m.end <= |s|
  {
    (if pos < m.start then [Text(s[pos..m.start])] else []) +
    [Highlight(m.start, Mentions.DisplayName(users, s[m.start + 1..m.end - 1]))]
  }

  /** The parts pushed from `from` on are the parts of the pieces from `from` on. */
  lemma {:induction false} RenderFromIsRender(s: string, from: nat, users: seq<User>)
    requires from <= |s|
    ensures RenderFrom(s, from, users) == Render(Mentions.Pieces(s, from), from, users)
    decreases |s| - from
  {
    if Mentions.NextMatch(s, from).None? {
      Mentions.PiecesAtEnd(s, from);
      if from < |s| {
        RenderOne(Mentions.Plain(s[from..]), from, users);
      }
    } else {
      var m := Mentions.NextMatch(s, from).value;
      RenderFromIsRender(s, m.end, users);
      RenderFromAtMatch(s, from, m, users);
    }
  }

  lemma RenderFromAtMatch(s: string, from: nat, m: Mentions.Match, users: seq<User>)
    requires from <= |s| && Mentions.NextMatch(s, from) == Some(m)
    requires RenderFrom(s, m.end, users) == Render(Mentions.Pieces(s, m.end), m.end, users)
    ensures RenderFrom(s, from, users) == Render(Mentions.Pieces(s, from), from, users)
  {
    var step := Mentions.Step(s, from, m);
    var rest := Mentions.Pieces(s, m.end);
    Mentions.PiecesAtMatch(s, from);
    assert Mentions.Pieces(s, from) == step + rest;
    RenderAppend(step, rest, from, users);
    Mentions.StepSpan(s, from, m);
    RenderOfStep(s, from, m, users);
    assert RenderFrom(s, from, users) == StepParts(s, from, m, users) + RenderFrom(s, m.end, users);
  }

  /** One turn of the exec loop of `renderCommentBody`: `whole` stays what the parts pushed so
      far and the parts still to come make up. */
  lemma RenderTurn(body: string, users: seq<User>, lastIndex: nat, parts: seq<Part>, start: nat, end: nat,
                   shown: string, whole: seq<Part>)
    requires lastIndex <= |body| && Mentions.NextMatch(body, lastIndex) == Some(Mentions.Match(start, end))
    requires lastIndex <= start && start + 3 <= end <= |body|
    requires shown == Mentions.DisplayName(users, body[start + 1..end - 1])
    requires parts + RenderFrom(body, lastIndex, users) == whole
    ensures ((if start > lastIndex then parts + [Text(body[lastIndex..start])] else parts) +
              [Highlight(start, shown)]) + RenderFrom(body, end, users) == whole
  {
    var m := Mentions.Match(start, end);
    var h := Highlight(start, shown);
    var t := Text(body[lastIndex..start]);
    var pre := if start > lastIndex then [t] else [];
    RenderFromAt(body, lastIndex, m, users);
    PushTurn(parts, pre, t, h, RenderFrom(body, end, users), start > lastIndex);
  }

  lemma RenderFromAt(s: string, from: nat, m: Mentions.Match, users: seq<User>)
    requires from <= |s| && Mentions.NextMatch(s, from) == Some(m)
    ensures RenderFrom(s, from, users) == StepParts(s, from, m, users) + RenderFrom(s, m.end, users)
  {
  }

  /** Pushing the parts of a turn one at a time. */
  lemma PushTurn(parts: seq<Part>, pre: seq<Part>, t: Part, h: Part, rest: seq<Part>, nonEmpty: bool)
    requires pre == if nonEmpty then [t] else []
    ensures ((if nonEmpty then parts + [t] else parts) + [h]) + rest == parts + ((pre + [h]) + rest)
  {
    if nonEmpty {
      assert ((parts + [t]) + [h]) + rest == parts + (([t] + [h]) + rest);
    } else {
      assert pre + [h] == [h];
      assert (parts + [h]) + rest == parts + ([h] + rest);
    }
  }

  /** `renderCommentBody`: an exec loop pushing the text before each match, when not empty,
      and a highlighted `@Name` (or the marker itself for an unknown user), then the rest. */
  method RenderCommentBody(body: string, users: seq<User>) returns (r: Rendered)
    ensures r == RenderSpec(body, users)
  {
    ghost var whole := RenderFrom(body, 0, users);
    var parts: seq<Part> := [];
    var lastIndex := 0;
    while true
      invariant lastIndex <= |body|
      invariant parts + RenderFrom(body, lastIndex, users) == whole
      decreases |body| - lastIndex
    {
      var m := Mentions.NextMatch(body, lastIndex);
      if m.None? {
        break;
      }
      var start, end := m.value.start, m.value.end;
      var displayName := Mentions.DisplayName(users, body[start + 1..end - 1]);
      RenderTurn(body, users, lastIndex, parts, start, end, displayName, whole);
      if start > lastIndex {
        parts := parts + [Text(body[lastIndex..start])];
      }
      parts := parts + [Highlight(start, displayName)];
      lastIndex := end;
    }
    RenderTail(body, users, lastIndex, parts, whole);
    if lastIndex < |body| {
      parts := parts + [Text(body[lastIndex..])];
    }
    r := if |parts| > 0 then Parts(parts) else Body(body);
  }

  /** After the last match, the rest of the body, when not empty, is the last part. */
  lemma RenderTail(body: string, users: seq<User>, lastIndex: nat, parts: seq<Part>, whole: seq<Part>)
    requires lastIndex <= |body| && Mentions.NextMatch(body, lastIndex).None?
    requires parts + RenderFrom(body, lastIndex, users) == whole
    ensures (if lastIndex < |body| then parts + [Text(body[lastIndex..])] else parts) == whole
  {
  }

  /** What the rendered comment reads as on screen. */
  function Screen(r: Rendered): string {
    match r
    case Body(b) => b
    case Parts(ps) => PartsText(ps)
  }

  function PartsText(ps: seq<Part>): string
    decreases |ps|
  {
    if ps == [] then []
    else
      (match ps[0]
       case Text(t) => t
       case Highlight(_, shown) => shown) + PartsText(ps[1..])
  }

  lemma {:induction false} PartsTextOfRender(ps: seq<Mentions.Piece>, at: nat, users: seq<User>)
    ensures PartsText(Render(ps, at, users)) == Mentions.Shown(ps, users)
    decreases |ps|
  {
    if ps != [] {
      PartsTextOfRender(ps[1..], at + Mentions.Width(ps[0]), users);
      assert Render(ps, at, users)[1..] == Render(ps[1..], at + Mentions.Width(ps[0]), users);
    }
  }

  /** A rendered comment reads exactly as the mention input shows the same raw body. */
  lemma RenderedReadsAsDisplayValue(body: string, users: seq<User>)
    ensures Screen(RenderSpec(body, users)) == Mentions.DisplayValue(body, Some(users))
  {
    RenderFromIsRender(body, 0, users);
    var ps := Mentions.Pieces(body, 0);
    PartsTextOfRender(ps, 0, users);
    if Render(ps, 0, users) == [] {
      assert ps == [];
      Mentions.PiecesAreWellFormed(body, 0);
    }
  }

  /** The body itself is returned exactly when it is empty. */
  lemma {:induction false} RenderIsEmptyOnlyForEmptyPieces(ps: seq<Mentions.Piece>, at: nat, users: seq<User>)
    ensures |Render(ps, at, users)| == |ps|
    decreases |ps|
  {
    if ps != [] {
      RenderIsEmptyOnlyForEmptyPieces(ps[1..], at + Mentions.Width(ps[0]), users);
    }
  }

  lemma RenderedBodyOnlyWhenEmpty(body: string, users: seq<User>)
    ensures RenderSpec(body, users).Body? <==> body == []
    ensures RenderSpec(body, users).Body? ==> RenderSpec(body, users).body == body
  {
    RenderFromIsRender(body, 0, users);
    RenderIsEmptyOnlyForEmptyPieces(Mentions.Pieces(body, 0), 0, users);
    Mentions.PiecesAreWellFormed(body, 0);
  }

  /** The number of highlighted parts. */
  function Highlights(ps: seq<Part>): nat
    decreases |ps|
  {
    if ps == [] then 0 else (if ps[0].Highlight? then 1 else 0) + Highlights(ps[1..])
  }

  lemma {:induction false} HighlightsOfRender(ps: seq<Mentions.Piece>, at: nat, users: seq<User>)
    ensures Highlights(Render(ps, at, users)) == |Mentions.IdsOf(ps)|
    decreases |ps|
  {
    if ps != [] {
      HighlightsOfRender(ps[1..], at + Mentions.Width(ps[0]), users);
      assert Render(ps, at, users)[1..] == Render(ps[1..], at + Mentions.Width(ps[0]), users);
      assert ps == [ps[0]] + ps[1..];
    }
  }

  /** One highlight per match of the pattern, repeats included. */
  lemma OneHighlightPerMarker(body: string, users: seq<User>)
    ensures RenderSpec(body, users).Parts? ==> Highlights(RenderSpec(body, users).parts) == |Mentions.MarkerIds(body)|
    ensures RenderSpec(body, users).Body? ==> Mentions.MarkerIds(body) == []
  {
    RenderFromIsRender(body, 0, users);
    HighlightsOfRender(Mentions.Pieces(body, 0), 0, users);
    RenderIsEmptyOnlyForEmptyPieces(Mentions.Pieces(body, 0), 0, users);
  }

  /** Parts as the pieces lay them out: every part starts at or after `at`, keys increase
      strictly, no text part is empty and no two text parts are adjacent. */
  predicate LaidOut(parts: seq<Part>, at: nat) {
    (forall i :: 0 <= i < |parts| && parts[i].Highlight? ==> at <= parts[i].key) &&
    (forall i, j :: 0 <= i < j < |parts| && parts[i].Highlight? && parts[j].Highlight? ==> parts[i].key < parts[j].key) &&
    (forall i :: 0 <= i < |parts| && parts[i].Text? ==> parts[i].text != []) &&
    (forall i :: 0 <= i < |parts| - 1 ==> !(parts[i].Text? && parts[i + 1].Text?))
  }

  lemma {:induction false} RenderIsLaidOut(ps: seq<Mentions.Piece>, at: nat, users: seq<User>)
    requires Mentions.WellFormed(ps)
    ensures LaidOut(Render(ps, at, users), at)
    decreases |ps|
  {
    if ps != [] {
      var next := at + Mentions.Width(ps[0]);
      assert Mentions.WellFormed(ps[1..]);
      RenderIsLaidOut(ps[1..], next, users);
      assert next > at;
      RenderIsEmptyOnlyForEmptyPieces(ps[1..], next, users);
      var r := Render(ps, at, users);
      assert r[1..] == Render(ps[1..], next, users);
      forall i | 0 <= i < |r| - 1 ensures !(r[i].Text? && r[i + 1].Text?) {
        if i == 0 && ps[0].Plain? {
          assert ps[1].Marker?;
          assert r[1] == Render(ps[1..], next, users)[0];
        }
      }
    }
  }

  /** The React keys of a rendered comment are distinct, and its parts alternate properly. */
  lemma RenderedKeysAreDistinct(body: string, users: seq<User>)
    ensures RenderSpec(body, users).Parts? ==> LaidOut(RenderSpec(body, users).parts, 0)
  {
    RenderFromIsRender(body, 0, users);
    Mentions.PiecesAreWellFormed(body, 0);
    RenderIsLaidOut(Mentions.Pieces(body, 0), 0, users);
  }

  /** A non-empty body without any marker is one text part. */
  lemma RenderWithoutMarkers(body: string, users: seq<User>)
    requires body != [] && Mentions.NextMatch(body, 0).None?
    ensures RenderSpec(body, users) == Parts([Text(body)])
  {
    assert body[0..] == body;
  }

  /** The text a part stands for in `body`: a text part its own text, a highlight the marker
      of `body` that starts at its key. */
  function RawOfPart(p: Part, body: string): string {
    match p
    case Text(t) => t
    case Highlight(k, _) =>
      match Mentions.MarkerEndAt(body, k)
      case Some(e) => body[k..e]
      case None => []
  }

  /** The text a whole sequence of parts stands for in `body`. */
  function RawOf(parts: seq<Part>, body: string): string {
    Seqs.FlatMap(parts, PartRaw(body))
  }

  function PartRaw(body: string): Part -> string {
    p => RawOfPart(p, body)
  }

  lemma RawOfAppend(a: seq<Part>, b: seq<Part>, body: string)
    ensures RawOf(a + b, body) == RawOf(a, body) + RawOf(b, body)
  {
    Seqs.FlatMapAppend(a, b, PartRaw(body));
  }

  lemma RawOfOne(p: Part, body: string)
    ensures RawOf([p], body) == RawOfPart(p, body)
  {
    Seqs.FlatMapOne(p, PartRaw(body));
  }

  /** The parts of one turn of the loop stand for the text from `pos` to the end of the match. */
  lemma RawOfStep(s: string, pos: nat, m: Mentions.Match, users: seq<User>)
    requires pos <= m.start && m.start + 3 <= m.end <= |s|
    requires Mentions.MarkerEndAt(s, m.start) == Some(m.end)
    ensures RawOf(StepParts(s, pos, m, users), s) == s[pos..m.end]
  {
    var hp := Highlight(m.start, Mentions.DisplayName(users, s[m.start + 1..m.end - 1]));
    var h := [hp];
    RawOfOne(hp, s);
    if pos < m.start {
      var t := [Text(s[pos..m.start])];
      RawOfOne(Text(s[pos..m.start]), s);
      RawOfAppend(t, h, s);
      assert s[pos..m.end] == s[pos..m.start] + s[m.start..m.end];
    } else {
      assert StepParts(s, pos, m, users) == h;
    }
  }

  /** The parts rendered from `from` on stand for the text from `from` on. */
  lemma {:induction false} RawOfRenderFrom(s: string, from: nat, users: seq<User>)
    requires from <= |s|
    ensures RawOf(RenderFrom(s, from, users), s) == s[from..]
    decreases |s| - from
  {
    if Mentions.NextMatch(s, from).None? {
      RawOfRenderEnd(s, from, users);
    } else {
      var m := Mentions.NextMatch(s, from).value;
      RawOfRenderFrom(s, m.end, users);
      RawOfRenderAtMatch(s, from, m.start, m.end, users);
    }
  }

  lemma RawOfRenderEnd(s: string, from: nat, users: seq<User>)
    requires from <= |s| && Mentions.NextMatch(s, from).None?
    ensures RawOf(RenderFrom(s, from, users), s) == s[from..]
  {
    if from < |s| {
      RawOfOne(Text(s[from..]), s);
    }
  }

  lemma RawOfRenderAtMatch(s: string, from: nat, start: nat, end: nat, users: seq<User>)
    requires from <= |s| && Mentions.NextMatch(s, from) == Some(Mentions.Match(start, end))
    requires RawOf(RenderFrom(s, end, users), s) == s[end..]
    ensures RawOf(RenderFrom(s, from, users), s) == s[from..]
  {
    var m := Mentions.Match(start, end);
    var step := StepParts(s, from, m, users);
    var rest := RenderFrom(s, end, users);
    RenderFromAt(s, from, m, users);
    RawOfStep(s, from, m, users);
    RawOfAppend(step, rest, s);
    Seqs.SplitAt(s, from, end);
  }

  /** Nothing of the body is lost: the text parts, with each highlight put back as the marker
      it replaced, spell the body. */
  lemma RenderSpellsTheBody(body: string, users: seq<User>)
    ensures RenderSpec(body, users).Parts? ==> RawOf(RenderSpec(body, users).parts, body) == body
  {
    RawOfRenderFrom(body, 0, users);
    assert body[0..] == body;
  }

  // ================================================================ the comment form

  /** The JavaScript `String.prototype.trim` white space: the WhiteSpace and LineTerminator
      code points of ECMAScript. */
  predicate IsJsSpace(c: char) {
    ('\U{9}' <= c <= '\U{D}') || c == ' ' || c == '\U{A0}' || c == '\U{1680}' ||
    ('\U{2000}' <= c <= '\U{200A}') || c == '\U{2028}' || c == '\U{2029}' || c == '\U{202F}' ||
    c == '\U{205F}' || c == '\U{3000}' || c == '\U{FEFF}'
  }

  /** `s.trim()`. */
  function Trim(s: string): (r: string)
    ensures r == [] <==> forall i :: 0 <= i < |s| ==> IsJsSpace(s[i])
    ensures r != [] ==> !IsJsSpace(r[0]) && !IsJsSpace(r[|r| - 1])
    decreases |s|
  {
    if s == [] then []
    else if IsJsSpace(s[0]) then Trim(s[1..])
    else if IsJsSpace(s[|s| - 1]) then Trim(s[..|s| - 1])
    else s
  }

  /** The comment form, with the state of its `useState` hooks and of its mutation. */
  class CommentForm {
    const ticketId: string
    var body: string
    var mentionedUserIds: seq<string>
    var isPending: bool

    /** The mention ids always follow the body, as the mention input's effect reports them. */
    predicate Valid()
      reads this
    {
      mentionedUserIds == Mentions.Dedup(Mentions.MarkerIds(body))
    }

    constructor(ticketId: string)
      ensures this.ticketId == ticketId && body == [] && mentionedUserIds == [] && !isPending
      ensures Valid()
    {
      this.ticketId := ticketId;
      body := [];
      mentionedUserIds := [];
      isPending := false;
    }

    /** `onChange={setBody}` followed by the effect that calls `onMentionsChange` with the ids
        extracted from the new value. */
    method OnBodyChange(value: string)
      modifies this
      ensures body == value && mentionedUserIds == Mentions.Dedup(Mentions.MarkerIds(value))
      ensures isPending == old(isPending)
      ensures Valid()
    {
      body := value;
      mentionedUserIds := Mentions.ExtractMentionedUserIds(value);
    }

    /** `disabled={isPending || !body.trim()}`. */
    function SubmitDisabled(): (r: bool)
      reads this
      ensures r <==> isPending || forall i :: 0 <= i < |body| ==> IsJsSpace(body[i])
    {
      isPending || Trim(body) == []
    }

    /** `handleSubmit`: the mutation's input; the mutation is then pending. */
    method HandleSubmit() returns (input: CommentRouter.CreateInput)
      requires Valid()
      modifies this`isPending
      ensures input == CommentRouter.CreateInput(ticketId, body, Some(mentionedUserIds))
      ensures input.mentionedUserIds == Some(Mentions.Dedup(Mentions.MarkerIds(body)))
      ensures isPending && Valid()
    {
      input := CommentRouter.CreateInput(ticketId, body, Some(mentionedUserIds));
      isPending := true;
    }

    /** `onSuccess`: the form is cleared once the comment is added. */
    method OnSuccess()
      modifies this
      ensures body == [] && mentionedUserIds == [] && !isPending
      ensures Valid()
    {
      body := [];
      mentionedUserIds := [];
      isPending := false;
    }

    /** A failed mutation only ends the pending state: what was typed is kept. */
    method OnError()
      requires Valid()
      modifies this`isPending
      ensures !isPending && Valid()
    {
      isPending := false;
    }
  }

  /** The form sends exactly the distinct ids of the markers in the body, in first-seen order. */
  lemma SubmittedIdsAreTheBodysMarkers(body: string, ids: seq<string>)
    requires ids == Mentions.Dedup(Mentions.MarkerIds(body))
    ensures Mentions.NoDuplicates(ids)
    ensures forall id :: id in ids <==> id in Mentions.MarkerIds(body)
    ensures forall id :: id in ids ==> Mentions.IsId(id)
  {
    Mentions.MarkerIdsAreSound(body);
  }
}
