/** components/tags-input.tsx: the tag picker. Its value is the list of selected tag ids, owned
    by the parent; every handler computes the list handed to `onValueChange`, or emits nothing. */
module TagsInput {
  import opened Wrappers
  import Seqs

  /** Keeps every id but `id`. */
  function Other(id: string): string -> bool {
    v => v != id
  }

  /** `handleRemove`: nothing when the id is not selected; otherwise the list without any
      occurrence of it, the other ids keeping their order and their number. */
  function HandleRemove(value: seq<string>, toRemove: string): (r: Option<seq<string>>)
    ensures toRemove !in value <==> r.None?
    ensures r.Some? ==>
              toRemove !in r.value && Seqs.Subseq(r.value, value) &&
              (forall v :: v in r.value <==> v in value && v != toRemove) &&
              forall v :: v != toRemove ==> multiset(r.value)[v] == multiset(value)[v]
  {
    if toRemove !in value then None else Some(Seqs.Filter(value, Other(toRemove)))
  }

  /** `handleSelect`: a selected id is removed as `handleRemove` does, any other id is appended. */
  function HandleSelect(value: seq<string>, toSelect: string): (r: Option<seq<string>>)
    ensures toSelect in value ==> r == HandleRemove(value, toSelect)
    ensures toSelect !in value ==> r == Some(value + [toSelect])
  {
    if toSelect in value then HandleRemove(value, toSelect) else Some(value + [toSelect])
  }

  /** `handleCreateTag`'s success callback: the created tag's id is appended to the value the
      handler saw and so becomes selected; nothing selected before is lost. */
  function OnTagCreated(value: seq<string>, newTagId: string): (r: seq<string>)
    ensures |r| == |value| + 1 && r[..|value|] == value && newTagId in r
  {
    value + [newTagId]
  }

  /** Selecting always emits a list, and it flips whether the selected id is in it, leaving every
      other id's selection as it was. */
  lemma SelectFlipsMembership(value: seq<string>, id: string)
    ensures HandleSelect(value, id).Some?
    ensures forall v :: v in HandleSelect(value, id).value <==> (if v == id then id !in value else v in value)
  {
  }

  /** Removing an id that is not in a list keeps that list as it is. */
  lemma RemoveAbsentKeeps(value: seq<string>, id: string)
    requires id !in value
    ensures Seqs.Filter(value, Other(id)) == value
  {
    Seqs.FilterAll(value, Other(id));
  }

  /** Selecting an unselected id twice gives back the original list. */
  lemma SelectTwiceRestores(value: seq<string>, id: string)
    requires id !in value
    ensures HandleSelect(value, id).Some? && HandleSelect(HandleSelect(value, id).value, id) == Some(value)
  {
    var once := value + [id];
    assert HandleSelect(value, id) == Some(once);
    assert id in once;
    Seqs.FilterAppend(value, [id], Other(id));
    RemoveAbsentKeeps(value, id);
    Seqs.FilterNone([id], Other(id));
    assert Seqs.Filter(once, Other(id)) == value;
  }

  /** Removing a freshly created tag again undoes the creation. */
  lemma RemoveCreatedRestores(value: seq<string>, newTagId: string)
    requires newTagId !in value
    ensures HandleRemove(OnTagCreated(value, newTagId), newTagId) == Some(value)
  {
    SelectTwiceRestores(value, newTagId);
  }

  /** Removing twice: the second removal emits nothing. */
  lemma RemoveIsFinal(value: seq<string>, id: string)
    ensures HandleRemove(value, id).Some? ==> HandleRemove(HandleRemove(value, id).value, id).None?
  {
  }
}
