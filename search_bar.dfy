/** The search bar's filter: for every note in the list, show it exactly when
    its extracted text contains the query. */
module Search {
  import opened Strings
  import opened Notes

  /** `stringMatch`: one pass over the list, calling `doDisplay` on the notes
      whose text contains `input` and `notDisplay` on the others. `text` is the
      text extraction applied to a note's markup. Only the display flags change;
      the new flags depend on the bodies and the query alone, not on the old
      flags, so a second run with the same query changes nothing. */
  method StringMatch(list: seq<NoteData>, input: string, text: string -> string)
    modifies set n | n in list :: n`isDisplay
    ensures forall i :: 0 <= i < |list| ==> list[i].isDisplay == Contains(text(list[i].body), input)
    ensures input == "" ==> forall i :: 0 <= i < |list| ==> list[i].isDisplay
  {
    for i := 0 to |list|
      invariant forall j :: 0 <= j < i ==> list[j].isDisplay == Contains(text(list[j].body), input)
    {
      var item := list[i];
      assert item in list;
      var ref := text(item.body);
      if Contains(ref, input) {
        item.DoDisplay();
      } else {
        item.NotDisplay();
      }
    }
    if input == "" {
      forall i | 0 <= i < |list|
        ensures list[i].isDisplay
      {
        ContainsEmpty(text(list[i].body));
      }
    }
  }
}
