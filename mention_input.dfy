/** components/mention-input.tsx: the state of the mention textarea. The raw value (with
    `<userId>` markers) belongs to the parent and arrives as the `value` prop; the textarea
    shows the display value (with `@Name`). Every change is handed to the parent through
    `onChange`; here each handler returns the value it hands over. */
module MentionInputComponent {
  import opened Wrappers
  import opened Schema
  import Seqs
  import Mentions

  class MentionInput {
    /** The `value` prop: the raw text, with markers. */
    var value: string
    /** The data of the user list query: `None` while it is loading. */
    var users: Option<seq<User>>

    var showMentions: bool
    var mentionSearch: string
    var cursorPosition: nat
    var mentionStartIndex: Option<nat>

    /** The first render: popup closed, no search, caret at 0, no mention started. */
    constructor (value: string, users: Option<seq<User>>)
      ensures this.value == value && this.users == users
      ensures !showMentions && mentionSearch == "" && cursorPosition == 0 && mentionStartIndex.None?
    {
      this.value := value;
      this.users := users;
      showMentions := false;
      mentionSearch := "";
      cursorPosition := 0;
      mentionStartIndex := None;
    }

    /** The text the textarea shows. */
    function Display(): string
      reads this
    {
      Mentions.DisplayValue(value, users)
    }

    /** The users the popup lists. */
    function Candidates(): seq<User>
      reads this
    {
      Mentions.FilteredUsers(users, mentionSearch)
    }

    /** `handleInputChange`: the caret is stored, the new display value is converted back to a
        raw value for the parent, and the popup opens or closes by the rule on the text before
        the caret. */
    method HandleInputChange(newDisplayValue: string, newCursorPosition: nat) returns (newRawValue: string)
      modifies this`cursorPosition, this`showMentions, this`mentionStartIndex, this`mentionSearch
      ensures cursorPosition == newCursorPosition
      ensures newRawValue == Mentions.ToRaw(users, newDisplayValue, value)
      ensures match Mentions.Trigger(newDisplayValue, newCursorPosition)
              case Open(start, search) => showMentions && mentionStartIndex == Some(start) && mentionSearch == search
              case Closed => !showMentions && mentionStartIndex.None? && mentionSearch == ""
    {
      cursorPosition := newCursorPosition;
      newRawValue := Mentions.DisplayToRaw(users, newDisplayValue, value);
      var textBeforeCursor := Seqs.SliceTo(newDisplayValue, newCursorPosition);
      var atIndex := Seqs.LastIndexOf(textBeforeCursor, '@');
      if atIndex.Some? {
        var charBeforeAt := if atIndex.value > 0 then textBeforeCursor[atIndex.value - 1] else ' ';
        if charBeforeAt == ' ' || charBeforeAt == '\n' || atIndex.value == 0 {
          var searchText := textBeforeCursor[atIndex.value + 1..];
          if ' ' !in searchText || |searchText| == 0 {
            mentionStartIndex := Some(atIndex.value);
            mentionSearch := searchText;
            showMentions := true;
            return;
          }
        }
      }
      showMentions := false;
      mentionStartIndex := None;
      mentionSearch := "";
    }

    /** `handleSelectUser`: nothing without a started mention. Otherwise the display text
        before the `@` and after the caret are each converted back to raw text, the user's
        marker and a space go between them, the popup closes, and the caret is put after the
        `@Name ` that the display value then holds. Returns the raw value handed to the
        parent and the caret position set. */
    method HandleSelectUser(user: User) returns (newRawValue: Option<string>, newCursorPos: Option<nat>)
      modifies this`showMentions, this`mentionStartIndex, this`mentionSearch
      ensures old(mentionStartIndex).None? ==>
                newRawValue.None? && newCursorPos.None? &&
                showMentions == old(showMentions) && mentionSearch == old(mentionSearch) && mentionStartIndex.None?
      ensures old(mentionStartIndex).Some? ==>
                var start := old(mentionStartIndex).value;
                newRawValue == Some(SelectedRaw(users, value, Display(), start, cursorPosition, user)) &&
                newCursorPos == Some(start + |user.name| + 2) &&
                !showMentions && mentionStartIndex.None? && mentionSearch == ""
    {
      if mentionStartIndex.None? {
        return None, None;
      }
      var start := mentionStartIndex.value;
      var currentDisplay := Mentions.DisplayValue(value, users);
      var beforeMention := Seqs.SliceTo(currentDisplay, start);
      var afterMention := Seqs.SliceFrom(currentDisplay, cursorPosition);
      var beforeMentionRaw := Mentions.DisplayToRaw(users, beforeMention, value);
      var afterMentionRaw := Mentions.DisplayToRaw(users, afterMention, value);
      newRawValue := Some(beforeMentionRaw + Mentions.MarkerText(user.id) + " " + afterMentionRaw);
      showMentions := false;
      mentionStartIndex := None;
      mentionSearch := "";
      newCursorPos := Some(start + |user.name| + 2);
    }

    /** `handleKeyDown`: with the popup open, Escape closes it, and Enter picks the first listed
        user when there is one; otherwise nothing happens. */
    method HandleKeyDown(key: string) returns (newRawValue: Option<string>, newCursorPos: Option<nat>)
      modifies this`showMentions, this`mentionStartIndex, this`mentionSearch
      ensures !old(showMentions) || (key != "Escape" && (key != "Enter" || old(Candidates()) == [])) ==>
                newRawValue.None? && newCursorPos.None? && unchanged(this)
      ensures old(showMentions) && key == "Escape" ==>
                newRawValue.None? && newCursorPos.None? && !showMentions &&
                mentionStartIndex == old(mentionStartIndex) && mentionSearch == old(mentionSearch)
      ensures old(showMentions) && key == "Enter" && old(Candidates()) != [] && old(mentionStartIndex).Some? ==>
                var start := old(mentionStartIndex).value;
                var user := old(Candidates())[0];
                newRawValue == Some(SelectedRaw(users, value, Display(), start, cursorPosition, user)) &&
                newCursorPos == Some(start + |user.name| + 2) &&
                !showMentions && mentionStartIndex.None? && mentionSearch == ""
      ensures old(showMentions) && key == "Enter" && old(Candidates()) != [] && old(mentionStartIndex).None? ==>
                newRawValue.None? && newCursorPos.None? && unchanged(this)
    {
      newRawValue, newCursorPos := None, None;
      if showMentions {
        if key == "Escape" {
          showMentions := false;
        } else if key == "Enter" && |Mentions.FilteredUsers(users, mentionSearch)| > 0 {
          newRawValue, newCursorPos := HandleSelectUser(Mentions.FilteredUsers(users, mentionSearch)[0]);
        }
      }
    }
  }

  /** The raw value `handleSelectUser` hands over: the raw text of the display text before the
      `@`, the user's marker and a space, then the raw text of the display text after the caret. */
  function SelectedRaw(users: Option<seq<User>>, value: string, display: string, start: nat, cursor: nat, user: User): string {
    Mentions.ToRaw(users, Seqs.SliceTo(display, start), value) + Mentions.MarkerText(user.id) + " " +
    Mentions.ToRaw(users, Seqs.SliceFrom(display, cursor), value)
  }

  /** The selected user is mentioned: the new raw value holds the user's marker, so extraction
      reports the user's id, provided the id is a well-formed marker id. */
  lemma SelectedUserIsMentioned(users: Option<seq<User>>, value: string, display: string, start: nat, cursor: nat, user: User)
    requires Mentions.IsId(user.id)
    ensures user.id in Mentions.MarkerIds(SelectedRaw(users, value, display, start, cursor, user))
  {
    var a := Mentions.ToRaw(users, Seqs.SliceTo(display, start), value);
    var b := Mentions.ToRaw(users, Seqs.SliceFrom(display, cursor), value);
    MarkerInside(a, user.id, " " + b);
    assert SelectedRaw(users, value, display, start, cursor, user) == a + Mentions.MarkerText(user.id) + (" " + b);
  }

  /** A marker between two texts is found by the scanner. */
  lemma MarkerInside(a: string, id: string, b: string)
    requires Mentions.IsId(id)
    ensures id in Mentions.MarkerIds(a + Mentions.MarkerText(id) + b)
  {
    var m := Mentions.MarkerText(id);
    var s := a + m + b;
    MarkerTextIsMarker(id);
    MarkerShifted(a, m, b);
    assert s[|a| + 1..|a| + |m| - 1] == m[1..|m| - 1];
    Mentions.MarkerIdsAreComplete(s);
  }

  /** The marker of a well-formed id is a whole marker, with the id inside. */
  lemma MarkerTextIsMarker(id: string)
    requires Mentions.IsId(id)
    ensures var m := Mentions.MarkerText(id); Mentions.IsMarkerAt(m, 0, |m|) && m[1..|m| - 1] == id
  {
    var m := Mentions.MarkerText(id);
    assert m == ['<'] + id + ['>'];
    forall k | 0 < k < |m| - 1 ensures Mentions.IsIdChar(m[k]) {
      assert m[k] == id[k - 1];
    }
  }

  /** Text around a marker does not change it. */
  lemma MarkerShifted(a: string, m: string, b: string)
    requires Mentions.IsMarkerAt(m, 0, |m|)
    ensures Mentions.IsMarkerAt(a + m + b, |a|, |a| + |m|)
  {
    var s := a + m + b;
    forall k | |a| < k < |a| + |m| - 1 ensures Mentions.IsIdChar(s[k]) {
      assert s[k] == m[k - |a|];
    }
  }
}
