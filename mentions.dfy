/** The mention codec of components/mention-input.tsx. A raw comment body names users with
    inline markers `<userId>`; the text box shows them as `@Name`. The pattern
    `<([a-zA-Z0-9_-]+)>` has no `<` or `>` inside the id, so the leftmost scanner below finds
    exactly the matches the global regular expression finds, in the same order. */
module Mentions {
  import opened Wrappers
  import opened Schema
  import Seqs

  // ================================================================ the marker pattern

  /** `[a-zA-Z0-9_-]`. */
  predicate IsIdChar(c: char) {
    ('a' <= c <= 'z') || ('A' <= c <= 'Z') || ('0' <= c <= '9') || c == '_' || c == '-'
  }

  /** The end of the run of id characters starting at `i`. */
  function RunEnd(s: string, i: nat): (e: nat)
    requires i <= |s|
    ensures i <= e <= |s|
    ensures forall k :: i <= k < e ==> IsIdChar(s[k])
    ensures e == |s| || !IsIdChar(s[e])
    decreases |s| - i
  {
    if i == |s| || !IsIdChar(s[i]) then i else RunEnd(s, i + 1)
  }

  /** `s[p..end]` is `<`, one or more id characters, `>`. */
  predicate IsMarkerAt(s: string, p: nat, end: nat) {
    p + 3 <= end <= |s| && s[p] == '<' && s[end - 1] == '>' &&
    forall k :: p < k < end - 1 ==> IsIdChar(s[k])
  }

  /** The end of the match of the pattern that starts at `p`, if there is one. The greedy `+`
      cannot stop early, since `>` is not an id character: a match is unique where it starts. */
  function MarkerEndAt(s: string, p: nat): (r: Option<nat>)
    ensures r.Some? ==> IsMarkerAt(s, p, r.value)
  {
    if p < |s| && s[p] == '<' then
      var e := RunEnd(s, p + 1);
      if e > p + 1 && e < |s| && s[e] == '>' then Some(e + 1) else None
    else None
  }

  /** The scanner misses no marker: a marker at `p` is the match found there. */
  lemma MarkerEndAtComplete(s: string, p: nat, end: nat)
    requires IsMarkerAt(s, p, end)
    ensures MarkerEndAt(s, p) == Some(end)
  {
    var e := RunEnd(s, p + 1);
    assert !IsIdChar(s[end - 1]);
  }

  /** One match: the marker occupies `s[start..end]`. */
  datatype Match = Match(start: nat, end: nat)

  /** `regex.exec(s)` with `lastIndex == from`: the leftmost match starting at or after `from`. */
  function NextMatch(s: string, from: nat): (r: Option<Match>)
    requires from <= |s|
    ensures r.Some? ==> from <= r.value.start && r.value.start + 3 <= r.value.end <= |s|
    ensures r.Some? ==> MarkerEndAt(s, r.value.start) == Some(r.value.end)
    decreases |s| - from
  {
    if from == |s| then None
    else
      match MarkerEndAt(s, from)
      case Some(e) => Some(Match(from, e))
      case None => NextMatch(s, from + 1)
  }

  /** The match found is the leftmost one: no match starts between `from` and it. */
  lemma {:induction false} NextMatchIsLeftmost(s: string, from: nat, p: nat)
    requires from <= p && from <= |s|
    requires NextMatch(s, from).None? || p < NextMatch(s, from).value.start
    ensures MarkerEndAt(s, p).None?
    decreases |s| - from
  {
    if from < |s| && from != p {
      NextMatchIsLeftmost(s, from + 1, p);
    }
  }

  // ================================================================ pieces

  /** A piece of a text as the global pattern splits it. */
  datatype Piece = Plain(text: string) | Marker(id: string)

  /** An id as the pattern captures it: one or more id characters. */
  predicate IsId(id: string) {
    |id| > 0 && forall c :: c in id ==> IsIdChar(c)
  }

  /** The text from `from` on, as an exec loop started with `lastIndex == from` walks it: the
      text before each match when it is not empty, then the match, and the text after the last one. */
  function Pieces(s: string, from: nat): seq<Piece>
    requires from <= |s|
    decreases |s| - from
  {
    match NextMatch(s, from)
    case None => if from < |s| then [Plain(s[from..])] else []
    case Some(m) =>
      (if from < m.start then [Plain(s[from..m.start])] else []) + [Marker(s[m.start + 1..m.end - 1])] + Pieces(s, m.end)
  }

  /** A marker written out. */
  function MarkerText(id: string): string {
    "<" + id + ">"
  }

  function PieceText(p: Piece): string {
    match p
    case Plain(t) => t
    case Marker(id) => MarkerText(id)
  }

  /** The length of a piece's text. */
  function Width(p: Piece): nat {
    match p
    case Plain(t) => |t|
    case Marker(id) => |id| + 2
  }

  /** The length of the text the pieces spell. */
  function Span(ps: seq<Piece>): nat
    decreases |ps|
  {
    if ps == [] then 0 else Width(ps[0]) + Span(ps[1..])
  }

  /** The text the pieces spell. */
  function Join(ps: seq<Piece>): string
    decreases |ps|
  {
    if ps == [] then [] else PieceText(ps[0]) + Join(ps[1..])
  }

  lemma {:induction false} JoinAppend(a: seq<Piece>, b: seq<Piece>)
    ensures Join(a + b) == Join(a) + Join(b)
    decreases |a|
  {
    if a == [] {
      assert a + b == b;
    } else {
      assert (a + b)[1..] == a[1..] + b;
      JoinAppend(a[1..], b);
    }
  }

  lemma {:induction false} SpanIsLength(ps: seq<Piece>)
    ensures Span(ps) == |Join(ps)|
    decreases |ps|
  {
    if ps != [] {
      SpanIsLength(ps[1..]);
    }
  }

  /** The match found at `m` is the marker text of its id. */
  lemma MatchIsMarkerText(s: string, m: Match)
    requires IsMarkerAt(s, m.start, m.end)
    ensures s[m.start..m.end] == MarkerText(s[m.start + 1..m.end - 1])
  {
    assert s[m.start..m.end] == [s[m.start]] + s[m.start + 1..m.end - 1] + [s[m.end - 1]];
  }

  /** How `Pieces` unfolds at a match. */
  lemma PiecesAtMatch(s: string, from: nat)
    requires from <= |s| && NextMatch(s, from).Some?
    ensures NextMatch(s, from).value.start + 3 <= NextMatch(s, from).value.end
    ensures Pieces(s, from) == Step(s, from, NextMatch(s, from).value) + Pieces(s, NextMatch(s, from).value.end)
  {
  }

  lemma JoinOne(p: Piece)
    ensures Join([p]) == PieceText(p)
  {
    assert [p][1..] == [];
  }

  /** The one-step pieces spell the text up to the end of the match. */
  lemma JoinStep(s: string, pos: nat, m: Match)
    requires pos <= m.start && IsMarkerAt(s, m.start, m.end)
    ensures Join(Step(s, pos, m)) == s[pos..m.end]
  {
    var marker := Marker(s[m.start + 1..m.end - 1]);
    MatchIsMarkerText(s, m);
    JoinOne(marker);
    if pos < m.start {
      var plain := Plain(s[pos..m.start]);
      JoinOne(plain);
      JoinAppend([plain], [marker]);
      assert Step(s, pos, m) == [plain] + [marker];
      assert s[pos..m.end] == s[pos..m.start] + s[m.start..m.end];
    } else {
      assert Step(s, pos, m) == [marker];
    }
  }

  /** The pieces spell the text exactly: splitting loses and adds nothing. */
  lemma {:induction false} PiecesSpellTheText(s: string, from: nat)
    requires from <= |s|
    ensures Join(Pieces(s, from)) == s[from..]
    decreases |s| - from
  {
    if NextMatch(s, from).None? {
      if from < |s| {
        JoinOne(Plain(s[from..]));
      }
    } else {
      var m := NextMatch(s, from).value;
      PiecesSpellTheText(s, m.end);
      JoinAtMatch(s, from, m.start, m.end);
    }
  }

  /** One step of `PiecesSpellTheText`: how the text from `from` is spelled once the text from
      the end of the next match is. */
  lemma JoinAtMatch(s: string, from: nat, start: nat, end: nat)
    requires from <= |s| && NextMatch(s, from) == Some(Match(start, end))
    requires Join(Pieces(s, end)) == s[end..]
    ensures Join(Pieces(s, from)) == s[from..]
  {
    var m := Match(start, end);
    PiecesAtMatch(s, from);
    JoinStep(s, from, m);
    JoinOfParts(Pieces(s, from), Step(s, from, m), Pieces(s, end), s[from..end], s[end..]);
    Seqs.SplitAt(s, from, end);
  }

  lemma JoinOfParts(ps: seq<Piece>, a: seq<Piece>, b: seq<Piece>, x: string, y: string)
    requires ps == a + b && Join(a) == x && Join(b) == y
    ensures Join(ps) == x + y
  {
    JoinAppend(a, b);
  }

  /** No empty text piece, no two text pieces in a row, and a well-formed id in every marker. */
  predicate WellFormed(ps: seq<Piece>) {
    (forall i :: 0 <= i < |ps| ==> (ps[i].Plain? ==> ps[i].text != []) && (ps[i].Marker? ==> IsId(ps[i].id))) &&
    (forall i :: 0 <= i < |ps| - 1 ==> !(ps[i].Plain? && ps[i + 1].Plain?))
  }

  lemma {:induction false} PiecesAreWellFormed(s: string, from: nat)
    requires from <= |s|
    ensures WellFormed(Pieces(s, from))
    ensures s[from..] != [] <==> Pieces(s, from) != []
    decreases |s| - from
  {
    match NextMatch(s, from)
    case None =>
    case Some(m) =>
      var id := s[m.start + 1..m.end - 1];
      assert IsId(id) by {
        forall c | c in id ensures IsIdChar(c) {
          var k :| 0 <= k < |id| && id[k] == c;
          assert c == s[m.start + 1 + k];
        }
      }
      PiecesAreWellFormed(s, m.end);
  }

  /** The ids of the marker pieces, in order, repeats included. */
  function IdsOf(ps: seq<Piece>): (r: seq<string>)
    ensures forall id :: id in r <==> Marker(id) in ps
    decreases |ps|
  {
    if ps == [] then []
    else
      assert ps == [ps[0]] + ps[1..];
      (if ps[0].Marker? then [ps[0].id] else []) + IdsOf(ps[1..])
  }

  lemma {:induction false} IdsOfAppend(a: seq<Piece>, b: seq<Piece>)
    ensures IdsOf(a + b) == IdsOf(a) + IdsOf(b)
    decreases |a|
  {
    if a == [] {
      assert a + b == b;
    } else {
      assert (a + b)[1..] == a[1..] + b;
      IdsOfAppend(a[1..], b);
    }
  }

  /** The ids of every match of `s`, repeats included (what an exec loop reads from `match[1]`). */
  function MarkerIds(s: string): seq<string> {
    IdsOf(Pieces(s, 0))
  }

  /** Matches cannot overlap a marker: every marker starting at or after `from` is matched. */
  lemma {:induction false} EveryMarkerIsMatched(s: string, from: nat, p: nat, end: nat)
    requires from <= p && from <= |s|
    requires IsMarkerAt(s, p, end)
    ensures Marker(s[p + 1..end - 1]) in Pieces(s, from)
    decreases |s| - from
  {
    MarkerEndAtComplete(s, p, end);
    if NextMatch(s, from).None? {
      NextMatchIsLeftmost(s, from, p);
    }
    var m := NextMatch(s, from).value;
    if m.start != p {
      if p < m.start {
        NextMatchIsLeftmost(s, from, p);
      }
      assert IsMarkerAt(s, m.start, m.end);
      assert s[p] == '<';
      assert m.end <= p;
      EveryMarkerIsMatched(s, m.end, p, end);
    }
  }

  /** Each extracted id is a non-empty run of id characters that occurs in the text as `<id>`. */
  lemma MarkerIdsAreSound(s: string)
    ensures forall id :: id in MarkerIds(s) ==> IsId(id) && Seqs.Occurs(s, MarkerText(id))
  {
    var ps := Pieces(s, 0);
    PiecesAreWellFormed(s, 0);
    PiecesSpellTheText(s, 0);
    assert Join(ps) == s;
    forall id | id in MarkerIds(s) ensures IsId(id) && Seqs.Occurs(s, MarkerText(id)) {
      var i :| 0 <= i < |ps| && ps[i] == Marker(id);
      JoinHasPiece(ps, i);
    }
  }

  /** Each piece's text occurs in the joined text, after the text of the pieces before it. */
  lemma JoinHasPiece(ps: seq<Piece>, i: nat)
    requires i < |ps|
    ensures Seqs.OccursAt(Join(ps), PieceText(ps[i]), |Join(ps[..i])|)
  {
    assert ps == ps[..i] + [ps[i]] + ps[i + 1..];
    JoinAppend(ps[..i] + [ps[i]], ps[i + 1..]);
    JoinAppend(ps[..i], [ps[i]]);
    assert [ps[i]][1..] == [];
    assert Join(ps) == Join(ps[..i]) + PieceText(ps[i]) + Join(ps[i + 1..]);
  }

  /** Every well-formed marker's id is extracted; text without markers yields none. */
  lemma MarkerIdsAreComplete(s: string)
    ensures forall p: nat, end: nat :: IsMarkerAt(s, p, end) ==> s[p + 1..end - 1] in MarkerIds(s)
    ensures (forall p: nat, end: nat :: !IsMarkerAt(s, p, end)) ==> MarkerIds(s) == []
  {
    forall p: nat, end: nat | IsMarkerAt(s, p, end) ensures s[p + 1..end - 1] in MarkerIds(s) {
      EveryMarkerIsMatched(s, 0, p, end);
    }
    if MarkerIds(s) != [] {
      var ps := Pieces(s, 0);
      var id := MarkerIds(s)[0];
      var i :| 0 <= i < |ps| && ps[i] == Marker(id);
      NoMarkerPieceWithoutMatch(s, 0, id);
    }
  }

  /** A marker piece comes from a match of the text. */
  lemma {:induction false} NoMarkerPieceWithoutMatch(s: string, from: nat, id: string)
    requires from <= |s| && Marker(id) in Pieces(s, from)
    ensures exists p: nat, end: nat :: IsMarkerAt(s, p, end) && id == s[p + 1..end - 1]
    decreases |s| - from
  {
    match NextMatch(s, from)
    case None =>
    case Some(m) =>
      if id == s[m.start + 1..m.end - 1] {
        assert IsMarkerAt(s, m.start, m.end);
      } else {
        NoMarkerPieceWithoutMatch(s, m.end, id);
      }
  }

  // ================================================================ extraction

  predicate NoDuplicates<T(==,!new)>(xs: seq<T>) {
    forall i, j :: 0 <= i < j < |xs| ==> xs[i] != xs[j]
  }

  /** The distinct elements of `xs`, each kept at its first occurrence. */
  function Dedup<T(==,!new)>(xs: seq<T>): (r: seq<T>)
    ensures forall x :: x in r <==> x in xs
    ensures NoDuplicates(r)
    decreases |xs|
  {
    if xs == [] then []
    else
      var d := Dedup(xs[..|xs| - 1]);
      var x := xs[|xs| - 1];
      assert forall y :: y in xs <==> y in xs[..|xs| - 1] || y == x by {
        assert xs == xs[..|xs| - 1] + [x];
      }
      if x in d then d else d + [x]
  }

  lemma DedupSnoc<T(!new)>(xs: seq<T>, x: T)
    ensures Dedup(xs + [x]) == if x in Dedup(xs) then Dedup(xs) else Dedup(xs) + [x]
  {
    assert (xs + [x])[..|xs|] == xs;
  }

  /** The index of the first occurrence of `x`. */
  function FirstIndex<T(==,!new)>(xs: seq<T>, x: T): (r: nat)
    requires x in xs
    ensures r < |xs| && xs[r] == x && forall j :: 0 <= j < r ==> xs[j] != x
  {
    if xs[0] == x then 0 else 1 + FirstIndex(xs[1..], x)
  }

  lemma FirstIndexOfPrefix<T(!new)>(xs: seq<T>, n: nat, x: T)
    requires n <= |xs| && x in xs[..n]
    ensures FirstIndex(xs, x) == FirstIndex(xs[..n], x)
  {
    var a, b := FirstIndex(xs, x), FirstIndex(xs[..n], x);
    assert xs[..n][b] == x;
    assert !(b < a);
    assert !(a < b) by {
      assert xs[..n][a] == xs[a];
    }
  }

  /** The distinct elements come in the order of their first occurrences. */
  predicate FirstSeenOrder<T(==,!new)>(xs: seq<T>, r: seq<T>)
    requires forall x :: x in r ==> x in xs
  {
    forall i, j :: 0 <= i < j < |r| ==> FirstIndex(xs, r[i]) < FirstIndex(xs, r[j])
  }

  /** Extraction keeps first-seen order: ids appear in the order of their first markers. */
  lemma {:induction false} DedupKeepsFirstSeenOrder<T(!new)>(xs: seq<T>)
    ensures FirstSeenOrder(xs, Dedup(xs))
    decreases |xs|
  {
    if xs != [] {
      var init := xs[..|xs| - 1];
      DedupKeepsFirstSeenOrder(init);
      assert xs == init + [xs[|xs| - 1]];
      FirstSeenOrderStep(init, xs[|xs| - 1]);
    }
  }

  lemma FirstSeenOrderStep<T(!new)>(init: seq<T>, x: T)
    requires FirstSeenOrder(init, Dedup(init))
    ensures FirstSeenOrder(init + [x], Dedup(init + [x]))
  {
    var xs := init + [x];
    var d := Dedup(init);
    assert xs[..|init|] == init;
    forall y | y in d ensures FirstIndex(xs, y) == FirstIndex(init, y) {
      FirstIndexOfPrefix(xs, |init|, y);
    }
    DedupSnoc(init, x);
    if x in d {
      assert Dedup(xs) == d;
      forall i, j | 0 <= i < j < |d| ensures FirstIndex(xs, d[i]) < FirstIndex(xs, d[j]) {
        assert d[i] in d && d[j] in d;
      }
    } else {
      var r := d + [x];
      assert Dedup(xs) == r;
      assert x !in init;
      assert FirstIndex(xs, x) == |init|;
      forall i, j | 0 <= i < j < |r| ensures FirstIndex(xs, r[i]) < FirstIndex(xs, r[j]) {
        assert r[i] == d[i] && d[i] in d;
        if j < |d| {
          assert r[j] == d[j] && d[j] in d;
        }
      }
    }
  }

  /** One step of an exec loop: the pieces from `pos` are the text before the match, when not
      empty, the match, and the pieces after it. */
  function Step(s: string, pos: nat, m: Match): seq<Piece>
    requires pos <= m.start && m.start + 3 <= m.end <= |s|
  {
    (if pos < m.start then [Plain(s[pos..m.start])] else []) + [Marker(s[m.start + 1..m.end - 1])]
  }

  /** The pieces of one turn span the text from `pos` to the end of the match. */
  lemma StepSpan(s: string, pos: nat, m: Match)
    requires pos <= m.start && m.start + 3 <= m.end <= |s|
    ensures Span(Step(s, pos, m)) == m.end - pos
  {
    var marker := Marker(s[m.start + 1..m.end - 1]);
    assert Span([marker]) == m.end - m.start by {
      assert [marker][1..] == [];
    }
    if pos < m.start {
      var plain := Plain(s[pos..m.start]);
      assert Step(s, pos, m) == [plain, marker];
      assert [plain, marker][1..] == [marker];
    } else {
      assert Step(s, pos, m) == [marker];
    }
  }

  lemma StepIds(s: string, pos: nat, start: nat, end: nat)
    requires pos <= start && start + 3 <= end <= |s|
    ensures IdsOf(Step(s, pos, Match(start, end))) == [s[start + 1..end - 1]]
  {
    var marker := Marker(s[start + 1..end - 1]);
    var pre := if pos < start then [Plain(s[pos..start])] else [];
    assert Step(s, pos, Match(start, end)) == pre + [marker];
    IdsOfAppend(pre, [marker]);
    assert [marker][1..] == [];
    if pos < start {
      assert pre[1..] == [];
    }
  }

  /** How `Pieces` ends after the last match. */
  lemma PiecesAtEnd(s: string, pos: nat)
    requires pos <= |s| && NextMatch(s, pos).None?
    ensures Pieces(s, pos) == if pos < |s| then [Plain(s[pos..])] else []
  {
  }

  /** One turn of the exec loop of `extractMentionedUserIds`, on the pieces. */
  lemma ExtractStep(s: string, pos: nat, start: nat, end: nat, done: seq<Piece>, ids: seq<string>)
    requires pos <= |s| && NextMatch(s, pos) == Some(Match(start, end))
    requires done + Pieces(s, pos) == Pieces(s, 0)
    requires ids == Dedup(IdsOf(done))
    ensures (done + Step(s, pos, Match(start, end))) + Pieces(s, end) == Pieces(s, 0)
    ensures var id := s[start + 1..end - 1];
            Dedup(IdsOf(done + Step(s, pos, Match(start, end)))) == if id in ids then ids else ids + [id]
  {
    var id := s[start + 1..end - 1];
    var step := Step(s, pos, Match(start, end));
    PiecesAtMatch(s, pos);
    assert (done + step) + Pieces(s, end) == done + Pieces(s, pos);
    IdsOfAppend(done, step);
    StepIds(s, pos, start, end);
    assert IdsOf(done + step) == IdsOf(done) + [id];
    DedupSnoc(IdsOf(done), id);
  }

  /** After the last match only text remains, which holds no marker. */
  lemma NoMarkerAfterLastMatch(s: string, pos: nat, done: seq<Piece>)
    requires pos <= |s| && NextMatch(s, pos).None?
    requires done + Pieces(s, pos) == Pieces(s, 0)
    ensures IdsOf(Pieces(s, 0)) == IdsOf(done)
  {
    if pos < |s| {
      assert [Plain(s[pos..])][1..] == [];
    }
    IdsOfAppend(done, Pieces(s, pos));
  }

  /** `extractMentionedUserIds`: one exec loop over the text, pushing each id not yet seen. */
  method ExtractMentionedUserIds(text: string) returns (ids: seq<string>)
    ensures ids == Dedup(MarkerIds(text))
    ensures NoDuplicates(ids) && forall id :: id in ids <==> id in MarkerIds(text)
  {
    ids := [];
    var pos := 0;
    ghost var done: seq<Piece> := [];
    while true
      invariant pos <= |text|
      invariant done + Pieces(text, pos) == Pieces(text, 0)
      invariant ids == Dedup(IdsOf(done))
      decreases |text| - pos
    {
      var m := NextMatch(text, pos);
      if m.None? {
        break;
      }
      var start, end := m.value.start, m.value.end;
      var id := text[start + 1..end - 1];
      ghost var step := Step(text, pos, Match(start, end));
      ExtractStep(text, pos, start, end, done, ids);
      if id !in ids {
        ids := ids + [id];
      }
      done := done + step;
      pos := end;
    }
    NoMarkerAfterLastMatch(text, pos, done);
  }

  // ================================================================ display value

  /** What a marker becomes on screen: `@Name` for a known user, the marker itself otherwise. */
  function DisplayName(users: seq<User>, id: string): string {
    match FindUser(users, id)
    case Some(u) => "@" + u.name
    case None => MarkerText(id)
  }

  /** The pieces as shown: text as it is, each marker by its display name. */
  function Shown(ps: seq<Piece>, users: seq<User>): string
    decreases |ps|
  {
    if ps == [] then []
    else
      (match ps[0]
       case Plain(t) => t
       case Marker(id) => DisplayName(users, id)) + Shown(ps[1..], users)
  }

  /** `displayValue`: `value.replace(MENTION_TAG_REGEX, ...)`, or the raw value itself while the
      users are not loaded. */
  function DisplayValue(raw: string, users: Option<seq<User>>): (r: string)
    ensures users.None? ==> r == raw
  {
    if users.None? then raw else Shown(Pieces(raw, 0), users.value)
  }

  /** Markers of unknown users are shown literally. */
  lemma {:induction false} ShownWithoutKnownIds(ps: seq<Piece>, users: seq<User>)
    requires forall id :: id in IdsOf(ps) ==> FindUser(users, id).None?
    ensures Shown(ps, users) == Join(ps)
    decreases |ps|
  {
    if ps != [] {
      assert forall id :: id in IdsOf(ps[1..]) ==> id in IdsOf(ps) by {
        assert ps == [ps[0]] + ps[1..];
      }
      ShownWithoutKnownIds(ps[1..], users);
    }
  }

  /** A raw value without a marker of a known user is shown unchanged. */
  lemma DisplayValueOfUnknownMarkers(raw: string, users: seq<User>)
    requires forall id :: id in MarkerIds(raw) ==> FindUser(users, id).None?
    ensures DisplayValue(raw, Some(users)) == raw
  {
    ShownWithoutKnownIds(Pieces(raw, 0), users);
    PiecesSpellTheText(raw, 0);
  }

  /** Each known marker is replaced by `@Name` and everything else is kept. */
  lemma {:induction false} ShownAppend(a: seq<Piece>, b: seq<Piece>, users: seq<User>)
    ensures Shown(a + b, users) == Shown(a, users) + Shown(b, users)
    decreases |a|
  {
    if a == [] {
      assert a + b == b;
    } else {
      assert (a + b)[1..] == a[1..] + b;
      ShownAppend(a[1..], b, users);
    }
  }

  // ================================================================ display to raw

  /** An entry of `rawMentions`. */
  datatype Mention = Mention(userId: string, name: string)

  /** The known users among the marker pieces, in order, repeats included. */
  function RawMentions(ps: seq<Piece>, users: seq<User>): seq<Mention>
    decreases |ps|
  {
    if ps == [] then []
    else
      (if ps[0].Marker? then MentionOf(users, ps[0].id) else []) + RawMentions(ps[1..], users)
  }

  lemma {:induction false} RawMentionsAppend(a: seq<Piece>, b: seq<Piece>, users: seq<User>)
    ensures RawMentions(a + b, users) == RawMentions(a, users) + RawMentions(b, users)
    decreases |a|
  {
    if a == [] {
      assert a + b == b;
    } else {
      assert (a + b)[1..] == a[1..] + b;
      RawMentionsAppend(a[1..], b, users);
    }
  }

  /** The replacements in order, each of the first remaining `@Name` by `<id>`. */
  function ApplyAll(s: string, ms: seq<Mention>): string
    decreases |ms|
  {
    if ms == [] then s
    else ApplyAll(Seqs.ReplaceFirst(s, "@" + ms[0].name, MarkerText(ms[0].userId)), ms[1..])
  }

  /** The value `displayToRaw(display, currentRaw)` computes. */
  function ToRaw(users: Option<seq<User>>, display: string, currentRaw: string): string {
    if users.None? then display else ApplyAll(display, RawMentions(Pieces(currentRaw, 0), users.value))
  }

  /** `displayToRaw`: the mentions of known users in the current raw value, then one
      `String.replace` per mention; while the users are not loaded, the display value itself. */
  method DisplayToRaw(users: Option<seq<User>>, display: string, currentRaw: string) returns (result: string)
    ensures result == ToRaw(users, display, currentRaw)
  {
    if users.None? {
      return display;
    }
    var rawMentions := CollectRawMentions(users.value, currentRaw);
    result := ReplaceMentions(display, rawMentions);
  }

  /** The exec loop of `displayToRaw` over the current raw value. */
  method CollectRawMentions(users: seq<User>, currentRaw: string) returns (rawMentions: seq<Mention>)
    ensures rawMentions == RawMentions(Pieces(currentRaw, 0), users)
  {
    rawMentions := [];
    var pos := 0;
    ghost var done: seq<Piece> := [];
    while true
      invariant pos <= |currentRaw|
      invariant done + Pieces(currentRaw, pos) == Pieces(currentRaw, 0)
      invariant rawMentions == RawMentions(done, users)
      decreases |currentRaw| - pos
    {
      var m := NextMatch(currentRaw, pos);
      if m.None? {
        break;
      }
      var start, end := m.value.start, m.value.end;
      CollectStep(currentRaw, pos, start, end, done, users);
      ghost var step := Step(currentRaw, pos, Match(start, end));
      var user := FindUser(users, currentRaw[start + 1..end - 1]);
      if user.Some? {
        rawMentions := rawMentions + [Mention(user.value.id, user.value.name)];
      }
      done := done + step;
      pos := end;
    }
    NoMentionAfterLastMatch(currentRaw, pos, done, users);
  }

  /** The replacement loop of `displayToRaw`: the first remaining `@Name` of each mention, in
      order, becomes the mention's marker. */
  method ReplaceMentions(display: string, rawMentions: seq<Mention>) returns (result: string)
    ensures result == ApplyAll(display, rawMentions)
  {
    result := display;
    var i := 0;
    while i < |rawMentions|
      invariant 0 <= i <= |rawMentions|
      invariant ApplyAll(result, rawMentions[i..]) == ApplyAll(display, rawMentions)
    {
      assert rawMentions[i..][1..] == rawMentions[i + 1..];
      result := Seqs.ReplaceFirst(result, "@" + rawMentions[i].name, MarkerText(rawMentions[i].userId));
      i := i + 1;
    }
  }

  /** The mention a marker of `id` contributes: one for a known user, none otherwise. */
  function MentionOf(users: seq<User>, id: string): seq<Mention> {
    match FindUser(users, id)
    case Some(u) => [Mention(u.id, u.name)]
    case None => []
  }

  /** One turn of the exec loop of `displayToRaw`, on the pieces. */
  lemma CollectStep(s: string, pos: nat, start: nat, end: nat, done: seq<Piece>, users: seq<User>)
    requires pos <= |s| && NextMatch(s, pos) == Some(Match(start, end))
    requires done + Pieces(s, pos) == Pieces(s, 0)
    ensures (done + Step(s, pos, Match(start, end))) + Pieces(s, end) == Pieces(s, 0)
    ensures RawMentions(done + Step(s, pos, Match(start, end)), users) ==
            RawMentions(done, users) + MentionOf(users, s[start + 1..end - 1])
  {
    var m := Match(start, end);
    var step := Step(s, pos, m);
    PiecesAtMatch(s, pos);
    assert (done + step) + Pieces(s, end) == done + Pieces(s, pos);
    StepMentions(s, pos, start, end, users);
    RawMentionsOfParts(done, step, RawMentions(done, users), MentionOf(users, s[start + 1..end - 1]), users);
  }

  lemma RawMentionsOfParts(a: seq<Piece>, b: seq<Piece>, x: seq<Mention>, y: seq<Mention>, users: seq<User>)
    requires RawMentions(a, users) == x && RawMentions(b, users) == y
    ensures RawMentions(a + b, users) == x + y
  {
    RawMentionsAppend(a, b, users);
  }

  lemma StepMentions(s: string, pos: nat, start: nat, end: nat, users: seq<User>)
    requires pos <= start && start + 3 <= end <= |s|
    ensures RawMentions(Step(s, pos, Match(start, end)), users) == MentionOf(users, s[start + 1..end - 1])
  {
    var marker := Marker(s[start + 1..end - 1]);
    var pre := if pos < start then [Plain(s[pos..start])] else [];
    assert Step(s, pos, Match(start, end)) == pre + [marker];
    assert RawMentions([marker], users) == MentionOf(users, s[start + 1..end - 1]) by {
      assert [marker][1..] == [];
    }
    assert RawMentions(pre, users) == [] by {
      if pos < start {
        assert pre[1..] == [];
      }
    }
    RawMentionsOfParts(pre, [marker], [], MentionOf(users, s[start + 1..end - 1]), users);
    assert [] + MentionOf(users, s[start + 1..end - 1]) == MentionOf(users, s[start + 1..end - 1]);
  }

  /** After the last match only text remains, which holds no mention. */
  lemma NoMentionAfterLastMatch(s: string, pos: nat, done: seq<Piece>, users: seq<User>)
    requires pos <= |s| && NextMatch(s, pos).None?
    requires done + Pieces(s, pos) == Pieces(s, 0)
    ensures RawMentions(Pieces(s, 0), users) == RawMentions(done, users)
  {
    if pos < |s| {
      assert [Plain(s[pos..])][1..] == [];
    }
    RawMentionsAppend(done, Pieces(s, pos), users);
  }

  /** With no marker of a known user in the current raw value, typed text is taken as it is. */
  lemma {:induction false} ToRawWithoutKnownMarkers(ps: seq<Piece>, users: seq<User>)
    requires forall id :: id in IdsOf(ps) ==> FindUser(users, id).None?
    ensures RawMentions(ps, users) == []
    decreases |ps|
  {
    if ps != [] {
      assert forall id :: id in IdsOf(ps[1..]) ==> id in IdsOf(ps) by {
        assert ps == [ps[0]] + ps[1..];
      }
      if ps[0].Marker? {
        assert ps[0].id in IdsOf(ps);
      }
      ToRawWithoutKnownMarkers(ps[1..], users);
    }
  }

  /** `displayToRaw` is the identity while the users are not loaded, and when the current raw
      value holds no marker of a known user. */
  lemma ToRawIsIdentityWithoutKnownMarkers(users: Option<seq<User>>, display: string, currentRaw: string)
    requires users.Some? ==> forall id :: id in MarkerIds(currentRaw) ==> FindUser(users.value, id).None?
    ensures ToRaw(users, display, currentRaw) == display
  {
    if users.Some? {
      ToRawWithoutKnownMarkers(Pieces(currentRaw, 0), users.value);
    }
  }

  /** The side condition for one marker: a known user's name holds no `@`, and the user's
      `@Name` does not occur literally in the raw value. */
  ghost predicate SafeMention(raw: string, users: seq<User>, id: string) {
    FindUser(users, id).Some? ==>
      '@' !in FindUser(users, id).value.name && !Seqs.Occurs(raw, "@" + FindUser(users, id).value.name)
  }

  /** In `a + pat + b`, where `a` is a prefix of a text in which `pat` does not occur and `pat`
      is `@` followed by no further `@`, the first occurrence of `pat` is right after `a`. */
  lemma FirstOccurrenceAfterPrefix(raw: string, a: string, name: string, b: string)
    requires |a| <= |raw| && raw[..|a|] == a
    requires '@' !in name && !Seqs.Occurs(raw, "@" + name)
    ensures forall j: nat :: j < |a| ==> !Seqs.OccursAt(a + ("@" + name) + b, "@" + name, j)
    ensures Seqs.OccursAt(a + ("@" + name) + b, "@" + name, |a|)
  {
    var pat := "@" + name;
    var t := a + pat + b;
    forall j: nat | j < |a| ensures !Seqs.OccursAt(t, pat, j) {
      if j + |pat| <= |a| {
        assert t[j..j + |pat|] == raw[j..j + |pat|];
        assert !Seqs.OccursAt(raw, pat, j);
      } else {
        var k := |a| - j;
        assert t[j + k] == '@';
        assert pat[k] == name[k - 1];
        assert name[k - 1] in name;
      }
    }
    assert t[|a|..|a| + |pat|] == pat;
  }

  /** Round trip over pieces: with `a` the raw text before them, restoring the known mentions one
      `String.replace` at a time, in order, turns the shown text back into the raw text. */
  lemma {:induction false} RoundTripPieces(raw: string, a: string, ps: seq<Piece>, users: seq<User>)
    requires raw == a + Join(ps)
    requires forall id :: id in IdsOf(ps) ==> SafeMention(raw, users, id)
    ensures ApplyAll(a + Shown(ps, users), RawMentions(ps, users)) == raw
    decreases |ps|
  {
    if ps == [] {
      assert a + Shown(ps, users) == raw;
    } else {
      var rest := ps[1..];
      assert ps == [ps[0]] + rest;
      assert forall id :: id in IdsOf(rest) ==> id in IdsOf(ps);
      assert raw == (a + PieceText(ps[0])) + Join(rest);
      RoundTripPieces(raw, a + PieceText(ps[0]), rest, users);
      if ps[0].Marker? {
        assert ps[0].id in IdsOf(ps);
      }
      RoundTripStep(raw, a, ps, users);
    }
  }

  /** The first `@Name` of `a + "@Name" + b`, for `a` a prefix of the raw text, is the one right
      after `a`, so replacing it puts `rep` there. */
  lemma ReplaceAfterPrefix(raw: string, a: string, name: string, b: string, rep: string)
    requires |a| <= |raw| && raw[..|a|] == a
    requires '@' !in name && !Seqs.Occurs(raw, "@" + name)
    ensures Seqs.ReplaceFirst(a + ("@" + name) + b, "@" + name, rep) == (a + rep) + b
  {
    var pat := "@" + name;
    var t := a + pat + b;
    FirstOccurrenceAfterPrefix(raw, a, name, b);
    Seqs.ReplaceFirstAt(t, pat, rep, |a|);
    assert t[..|a|] == a;
    assert t[|a| + |pat|..] == b;
  }

  /** One step of `RoundTripPieces`: the first piece is restored once the rest are. */
  lemma RoundTripStep(raw: string, a: string, ps: seq<Piece>, users: seq<User>)
    requires ps != [] && raw == a + Join(ps)
    requires ps[0].Marker? ==> SafeMention(raw, users, ps[0].id)
    requires ApplyAll((a + PieceText(ps[0])) + Shown(ps[1..], users), RawMentions(ps[1..], users)) == raw
    ensures ApplyAll(a + Shown(ps, users), RawMentions(ps, users)) == raw
  {
    var rest := ps[1..];
    var p := ps[0];
    var b := Shown(rest, users);
    var ms := RawMentions(rest, users);
    if p.Marker? && FindUser(users, p.id).Some? {
      var u := FindUser(users, p.id).value;
      assert Shown(ps, users) == ("@" + u.name) + b;
      assert a + Shown(ps, users) == a + ("@" + u.name) + b;
      var m := Mention(u.id, u.name);
      assert RawMentions(ps, users) == [m] + ms;
      assert ([m] + ms)[1..] == ms;
      assert raw[..|a|] == a by {
        assert raw == a + Join(ps);
      }
      ReplaceAfterPrefix(raw, a, u.name, b, MarkerText(u.id));
      assert PieceText(p) == MarkerText(u.id);
    } else {
      assert Shown(ps, users) == PieceText(p) + b;
      assert a + Shown(ps, users) == (a + PieceText(p)) + b;
      assert RawMentions(ps, users) == ms;
    }
  }

  /** `displayToRaw(displayValue(raw), raw) == raw`, provided every known mentioned user's name
      holds no `@` and the user's `@Name` does not already occur in the raw value. */
  lemma RoundTrip(raw: string, users: seq<User>)
    requires forall id :: id in MarkerIds(raw) ==> SafeMention(raw, users, id)
    ensures ToRaw(Some(users), DisplayValue(raw, Some(users)), raw) == raw
  {
    PiecesSpellTheText(raw, 0);
    assert raw == [] + Join(Pieces(raw, 0));
    RoundTripPieces(raw, [], Pieces(raw, 0), users);
    assert [] + Shown(Pieces(raw, 0), users) == Shown(Pieces(raw, 0), users);
  }

  /** The `@` condition cannot be dropped: with a user "u" named "@", the raw value "@<u>" is
      shown as "@@@", and converting that back puts the marker in the wrong place. */
  lemma RoundTripNeedsNamesWithoutAt()
    ensures var users := [User("u", "@", "", None)];
            DisplayValue("@<u>", Some(users)) == "@@@" &&
            ToRaw(Some(users), "@@@", "@<u>") == "<u>@"
  {
    var users := [User("u", "@", "", None)];
    PiecesOfExample();
    ShownOfExample(users);
    MentionsOfExample(users);
    ApplyAllOfExample();
  }

  lemma ShownOfExample(users: seq<User>)
    requires users == [User("u", "@", "", None)]
    ensures Shown([Plain("@"), Marker("u")], users) == "@@@"
  {
    var ps := [Plain("@"), Marker("u")];
    assert ps[1..] == [Marker("u")] && ps[1..][1..] == [];
    assert DisplayName(users, "u") == "@@";
    assert Shown(ps[1..], users) == "@@";
  }

  lemma MentionsOfExample(users: seq<User>)
    requires users == [User("u", "@", "", None)]
    ensures RawMentions([Plain("@"), Marker("u")], users) == [Mention("u", "@")]
  {
    var ps := [Plain("@"), Marker("u")];
    assert ps[1..] == [Marker("u")] && ps[1..][1..] == [];
    assert MentionOf(users, "u") == [Mention("u", "@")];
  }

  /** The first "@@" of "@@@" is the one at index 0. */
  lemma ApplyAllOfExample()
    ensures ApplyAll("@@@", [Mention("u", "@")]) == "<u>@"
  {
    var pat := "@" + "@";
    assert pat == "@@";
    assert Seqs.OccursAt("@@@", pat, 0);
    Seqs.ReplaceFirstAt("@@@", pat, MarkerText("u"), 0);
    assert "@@@"[2..] == "@";
    assert [Mention("u", "@")][1..] == [];
  }

  /** How the exec loop splits the raw value of the counterexample. */
  lemma PiecesOfExample()
    ensures Pieces("@<u>", 0) == [Plain("@"), Marker("u")]
  {
    var s := "@<u>";
    assert RunEnd(s, 2) == 3;
    assert MarkerEndAt(s, 1) == Some(4);
    assert NextMatch(s, 0) == Some(Match(1, 4));
    assert Pieces(s, 4) == [];
    PiecesAtMatch(s, 0);
    assert s[0..1] == "@" && s[2..3] == "u";
  }

  // ================================================================ the popup trigger

  /** The mention popup: closed, or open with the index of its `@` and the search text. */
  datatype Popup = Closed | Open(start: nat, search: string)

  /** The rule of `handleInputChange`: look at the last `@` before the cursor. */
  function Trigger(display: string, cursor: nat): Popup {
    var before := Seqs.SliceTo(display, cursor);
    match Seqs.LastIndexOf(before, '@')
    case None => Closed
    case Some(at) =>
      var charBefore := if at > 0 then before[at - 1] else ' ';
      if charBefore == ' ' || charBefore == '\n' || at == 0 then
        var search := before[at + 1..];
        if ' ' !in search || |search| == 0 then Open(at, search) else Closed
      else Closed
  }

  /** `at` is the last `@` of `before`, it starts the text or follows a space or newline, and no
      space follows it. */
  predicate OpensAt(before: string, at: nat) {
    at < |before| && before[at] == '@' && '@' !in before[at + 1..] &&
    (at == 0 || before[at - 1] == ' ' || before[at - 1] == '\n') && ' ' !in before[at + 1..]
  }

  /** The popup opens exactly when some `@` satisfies the rule, and then its search text is the
      text between that `@` and the cursor; otherwise it closes. */
  lemma TriggerMeaning(display: string, cursor: nat)
    ensures var before := Seqs.SliceTo(display, cursor);
            (Trigger(display, cursor).Open? <==> exists at: nat :: OpensAt(before, at)) &&
            (Trigger(display, cursor).Open? ==>
               OpensAt(before, Trigger(display, cursor).start) &&
               Trigger(display, cursor).search == before[Trigger(display, cursor).start + 1..])
  {
    var before := Seqs.SliceTo(display, cursor);
    match Seqs.LastIndexOf(before, '@')
    case None =>
      forall at: nat | at < |before| ensures before[at] != '@' {
        assert before[at] in before;
      }
    case Some(last) =>
      assert '@' !in before[last + 1..] by {
        forall k | last + 1 <= k < |before| ensures before[k] != '@' { }
      }
      forall at: nat | at < last && before[at] == '@' ensures '@' in before[at + 1..] {
        assert before[at + 1..][last - at - 1] == '@';
      }
      if OpensAt(before, last) {
        assert Trigger(display, cursor) == Open(last, before[last + 1..]);
      }
      if Trigger(display, cursor).Open? {
        assert OpensAt(before, last);
      }
  }

  // ================================================================ user search

  /** ASCII `toLowerCase`. */
  function Lower(s: string): (r: string)
    ensures |r| == |s|
    ensures forall i :: 0 <= i < |s| ==> r[i] == if 'A' <= s[i] <= 'Z' then (s[i] as int + 32) as char else s[i]
  {
    seq(|s|, i requires 0 <= i < |s| => if 'A' <= s[i] <= 'Z' then (s[i] as int + 32) as char else s[i])
  }

  /** `s.includes(q)`. */
  predicate Includes(s: string, q: string) {
    Seqs.IndexOf(s, q).Some?
  }

  /** The search matches the name or the email, ignoring ASCII case. */
  function MatchesSearch(search: string): User -> bool {
    (u: User) => Includes(Lower(u.name), Lower(search)) || Includes(Lower(u.email), Lower(search))
  }

  /** `filteredUsers`: none before the users are loaded, every user for an empty search, and
      otherwise exactly the users matching the search, in their order. */
  function FilteredUsers(users: Option<seq<User>>, search: string): (r: seq<User>)
    ensures users.None? ==> r == []
    ensures users.Some? && search == "" ==> r == users.value
    ensures users.Some? && search != "" ==>
              Seqs.Subseq(r, users.value) &&
              forall u :: u in r <==> (u in users.value &&
                (Seqs.Occurs(Lower(u.name), Lower(search)) || Seqs.Occurs(Lower(u.email), Lower(search))))
  {
    if users.None? then []
    else if search == "" then users.value
    else Seqs.Filter(users.value, MatchesSearch(search))
  }
}
