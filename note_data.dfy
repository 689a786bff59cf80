/** The note entity `NoteData`: title, rich-text body, timestamps, the
    selection and display flags, the undo/redo stacks and the two listener
    lists of a JavaFX observable value. */
module Notes {
  import opened TextChanges
  import opened Strings
  import opened Markup
  import opened UndoHistory

  /** A point in time, as handed in by the caller (the source reads the clock). */
  type Timestamp = int

  /** An entry of a listener list. The lists hold nullable references; a null
      entry is kept in the list but skipped when notifying. */
  datatype Listener = Null | Handle(id: nat)

  /** The body of a freshly created note: an empty editable document. */
  const DefaultBody := "<html dir=\"ltr\"><head></head><body contenteditable=\"true\"></body></html>\n"

  /** The title `setNoteTitle` uses when handed the empty string. */
  const DefaultTitle := "New Note"

  /** The handles a notification round reaches, in list order, nulls skipped. */
  function Live(ls: seq<Listener>): (r: seq<nat>)
    ensures |r| <= |ls|
    ensures forall x :: x in r <==> Handle(x) in ls
    ensures Null !in ls ==> |r| == |ls| && forall i :: 0 <= i < |ls| ==> r[i] == ls[i].id
  {
    if ls == [] then []
    else if ls[0].Null? then Live(ls[1..])
    else [ls[0].id] + Live(ls[1..])
  }

  /** A round visits the list front to back: the handles reached from a
      concatenation are those reached from its first part, then from its
      second, so order and repeated registrations are kept. */
  lemma {:induction false} LiveConcat(a: seq<Listener>, b: seq<Listener>)
    ensures Live(a + b) == Live(a) + Live(b)
    decreases |a|
  {
    if a != [] {
      assert (a + b)[0] == a[0];
      assert (a + b)[1..] == a[1..] + b;
      LiveConcat(a[1..], b);
      if a[0].Null? {
        assert Live(a + b) == Live(a[1..] + b);
      } else {
        assert Live(a + b) == [a[0].id] + Live(a[1..] + b);
      }
    } else {
      assert a + b == b;
    }
  }

  /** Kotlin's `MutableList.remove(x)`: drop the first occurrence of `x`, if any. */
  function RemoveFirst(ls: seq<Listener>, x: Listener): (r: seq<Listener>)
    ensures x !in ls ==> r == ls
    ensures x in ls ==> |r| == |ls| - 1
  {
    if ls == [] then []
    else
      assert ls == [ls[0]] + ls[1..];
      if ls[0] == x then ls[1..] else [ls[0]] + RemoveFirst(ls[1..], x)
  }

  /** Removing an element keeps the others in their original relative order:
      exactly the first position holding it is cut out. */
  lemma {:induction false} RemoveFirstCutsOne(ls: seq<Listener>, x: Listener, i: nat)
    requires i < |ls| && ls[i] == x && x !in ls[..i]
    ensures RemoveFirst(ls, x) == ls[..i] + ls[i + 1..]
    decreases i
  {
    if i > 0 {
      var tail := ls[1..];
      assert ls[0] == ls[..i][0] != x;
      assert RemoveFirst(ls, x) == [ls[0]] + RemoveFirst(tail, x);
      assert tail[..i - 1] == ls[1..i];
      assert forall y :: y in tail[..i - 1] ==> y in ls[..i];
      RemoveFirstCutsOne(tail, x, i - 1);
      assert ls[..i] == [ls[0]] + tail[..i - 1];
      assert ls[i + 1..] == tail[i..];
    } else {
      assert ls == [ls[0]] + ls[1..];
    }
  }

  class NoteData {
    const id: int
    var title: string
    var body: string
    var dateCreated: Timestamp
    var dateEdited: Timestamp
    var isActive: bool
    var isDisplay: bool
    var undoStack: seq<Entry>
    var redoStack: seq<Entry>
    var changeListeners: seq<Listener>
    var invalidationListeners: seq<Listener>

    /** Every notification delivered so far, in order: each round reaches the
        invalidation listeners first, then the change listeners. */
    ghost var notified: seq<nat>

    /** The undo/redo view of this note. */
    function State(): History
      reads this
    {
      History(body, undoStack, redoStack)
    }

    /** The handles one notification round reaches right now. */
    function Audience(): seq<nat>
      reads this
    {
      Live(invalidationListeners) + Live(changeListeners)
    }

    /** `NoteData(id, title)`: the skeleton body, both dates set to `now`. */
    constructor (id: int, title: string, now: Timestamp)
      ensures this.id == id && this.title == title && body == DefaultBody
      ensures dateCreated == now && dateEdited == now
      ensures !isActive && isDisplay
      ensures undoStack == [] && redoStack == []
      ensures changeListeners == [] && invalidationListeners == [] && notified == []
    {
      this.id := id;
      this.title := title;
      body := DefaultBody;
      dateCreated, dateEdited := now, now;
      isActive, isDisplay := false, true;
      undoStack, redoStack := [], [];
      changeListeners, invalidationListeners := [], [];
      notified := [];
    }

    /** The secondary constructor, restoring a saved note; the dates arrive
        already parsed. */
    constructor Restore(id: int, title: string, body: string, created: Timestamp, edited: Timestamp)
      ensures this.id == id && this.title == title && this.body == body
      ensures dateCreated == created && dateEdited == edited
      ensures !isActive && isDisplay
      ensures undoStack == [] && redoStack == []
      ensures changeListeners == [] && invalidationListeners == [] && notified == []
    {
      this.id := id;
      this.title := title;
      this.body := body;
      dateCreated, dateEdited := created, edited;
      isActive, isDisplay := false, true;
      undoStack, redoStack := [], [];
      changeListeners, invalidationListeners := [], [];
      notified := [];
    }

    method AddChangeListener(l: Listener)
      modifies this`changeListeners
      ensures changeListeners == old(changeListeners) + [l]
    {
      changeListeners := changeListeners + [l];
    }

    method AddInvalidationListener(l: Listener)
      modifies this`invalidationListeners
      ensures invalidationListeners == old(invalidationListeners) + [l]
    {
      invalidationListeners := invalidationListeners + [l];
    }

    /** Removing a listener that is not registered changes nothing. */
    method RemoveChangeListener(l: Listener)
      modifies this`changeListeners
      ensures changeListeners == RemoveFirst(old(changeListeners), l)
      ensures l !in old(changeListeners) ==> changeListeners == old(changeListeners)
    {
      changeListeners := RemoveFirst(changeListeners, l);
    }

    method RemoveInvalidationListener(l: Listener)
      modifies this`invalidationListeners
      ensures invalidationListeners == RemoveFirst(old(invalidationListeners), l)
      ensures l !in old(invalidationListeners) ==> invalidationListeners == old(invalidationListeners)
    {
      invalidationListeners := RemoveFirst(invalidationListeners, l);
    }

    /** One synchronous notification round. */
    method Notify()
      modifies this`notified
      ensures notified == old(notified) + Audience()
    {
      notified := notified + Audience();
    }

    /** `setNoteTitle`: the empty title falls back to "New Note". */
    method SetNoteTitle(newTitle: string, now: Timestamp)
      modifies this`title, this`dateEdited, this`notified
      ensures newTitle == "" ==> title == DefaultTitle
      ensures newTitle != "" ==> title == newTitle
      ensures title != ""
      ensures dateEdited == now
      ensures notified == old(notified) + Audience()
    {
      if newTitle == "" {
        title := DefaultTitle;
      } else {
        title := newTitle;
      }
      dateEdited := now;
      Notify();
    }

    /** `changeNoteTitle`: no fallback and no new edit date. */
    method ChangeNoteTitle(newTitle: string)
      modifies this`title, this`notified
      ensures title == newTitle
      ensures notified == old(notified) + Audience()
    {
      title := newTitle;
      Notify();
    }

    /** `setNoteBody`, without the editor toolbar's date label update. */
    method SetNoteBody(newBody: string, now: Timestamp)
      modifies this`body, this`dateEdited, this`notified
      ensures body == newBody && State() == SetBody(old(State()), newBody)
      ensures dateEdited == now
      ensures notified == old(notified) + Audience()
    {
      body := newBody;
      dateEdited := now;
      Notify();
    }

    /** `changeNoteBody`: replaces the body without a new edit date. */
    method ChangeNoteBody(newBody: string)
      modifies this`body, this`notified
      ensures body == newBody && State() == SetBody(old(State()), newBody)
      ensures notified == old(notified) + Audience()
    {
      body := newBody;
      Notify();
    }

    /** `changeBodyBackgroundColor`, as written: new markup, computed from the
        body without changing it. `Markup.Recolor` is the repaired version. */
    function ChangeBodyBackgroundColor(color: string): (r: Recolored)
      reads this
      ensures IndexOf(body, StyledBodyTag) == -1 && IndexOf(body, BodyTag) >= 0 ==>
        && r.Recolored?
        && OccursAt(r.markup, StyledTag(color), IndexOf(body, BodyTag))
        && |r.markup| == |body| + |StyleAttr(color)|
      ensures IndexOf(body, BodyTag) == -1 ==> (r.IndexOutOfBounds? <==> |body| < 4)
      ensures IndexOf(body, StyledBodyTag) >= 0 ==>
        && (r.IndexOutOfBounds? <==> IndexOf(body, EditableAttr) == -1)
        && (r.Recolored? ==> !OccursAt(r.markup, StyledBodyTag, IndexOf(body, StyledBodyTag)))
    {
      RecolorAsWrittenOutcome(body, color);
      RecolorAsWritten(body, color)
    }

    /** `getPreview`: the first 100 characters of the extracted text. The text
        extraction is a parameter. */
    function Preview(text: string -> string): (r: string)
      reads this
      ensures |r| <= 100 && r <= text(body)
      ensures |r| == if |text(body)| < 100 then |text(body)| else 100
    {
      Take(text(body), 100)
    }

    method SetActive()
      modifies this`isActive, this`notified
      ensures isActive
      ensures notified == old(notified) + Audience()
    {
      isActive := true;
      Notify();
    }

    method SetInactive()
      modifies this`isActive, this`notified
      ensures !isActive
      ensures notified == old(notified) + Audience()
    {
      isActive := false;
      Notify();
    }

    /** `doDisplay`: no notification. */
    method DoDisplay()
      modifies this`isDisplay
      ensures isDisplay
    {
      isDisplay := true;
    }

    /** `notDisplay`: no notification. */
    method NotDisplay()
      modifies this`isDisplay
      ensures !isDisplay
    {
      isDisplay := false;
    }

    /** `addToUndoStack`: push the current body, tagged with `kind`; the body
        and the redo stack are left alone. */
    method AddToUndoStack(kind: TextChange)
      modifies this`undoStack
      ensures undoStack == old(undoStack) + [Entry(kind, body)]
      ensures State() == Record(old(State()), kind)
    {
      undoStack := undoStack + [Entry(kind, body)];
    }

    /** `emptyRedo`: the only operation that empties the redo stack whatever its
        size; `redo` pops one entry at a time. */
    method EmptyRedo()
      modifies this`redoStack
      ensures redoStack == []
      ensures State() == ClearRedo(old(State()))
    {
      redoStack := [];
    }

    /** `undo`: on an empty stack, null and no change at all; otherwise pop
        `(k, s)`, push `(Inverse(k), body)` onto the redo stack, set the body
        to `s` through `setNoteBody`, and return `s`. */
    method Undo(now: Timestamp) returns (r: Option<string>)
      modifies this`undoStack, this`redoStack, this`body, this`dateEdited, this`notified
      ensures r == UndoResult(old(State()))
      ensures State() == UndoHistory.Undo(old(State()))
      ensures old(undoStack) == [] ==>
        r == None && unchanged(this`body, this`undoStack, this`redoStack, this`dateEdited, this`notified)
      ensures old(undoStack) != [] ==>
        var top := old(undoStack)[|old(undoStack)| - 1];
        && r == Some(top.snapshot)
        && body == top.snapshot
        && undoStack == old(undoStack)[..|old(undoStack)| - 1]
        && redoStack == old(redoStack) + [Entry(Inverse(top.kind), old(body))]
        && dateEdited == now
        && notified == old(notified) + Audience()
    {
      if |undoStack| > 0 {
        var action := undoStack[|undoStack| - 1];
        undoStack := undoStack[..|undoStack| - 1];
        redoStack := redoStack + [Entry(Inverse(action.kind), body)];
        SetNoteBody(action.snapshot, now);
        r := Some(action.snapshot);
      } else {
        r := None;
      }
    }

    /** `redo`: the mirror image of `Undo`. */
    method Redo(now: Timestamp) returns (r: Option<string>)
      modifies this`undoStack, this`redoStack, this`body, this`dateEdited, this`notified
      ensures r == RedoResult(old(State()))
      ensures State() == UndoHistory.Redo(old(State()))
      ensures old(redoStack) == [] ==>
        r == None && unchanged(this`body, this`undoStack, this`redoStack, this`dateEdited, this`notified)
      ensures old(redoStack) != [] ==>
        var top := old(redoStack)[|old(redoStack)| - 1];
        && r == Some(top.snapshot)
        && body == top.snapshot
        && redoStack == old(redoStack)[..|old(redoStack)| - 1]
        && undoStack == old(undoStack) + [Entry(Inverse(top.kind), old(body))]
        && dateEdited == now
        && notified == old(notified) + Audience()
    {
      if |redoStack| > 0 {
        var action := redoStack[|redoStack| - 1];
        redoStack := redoStack[..|redoStack| - 1];
        undoStack := undoStack + [Entry(Inverse(action.kind), body)];
        SetNoteBody(action.snapshot, now);
        r := Some(action.snapshot);
      } else {
        r := None;
      }
    }
  }

  /** A successful undo followed by a redo on the same note puts body and both
      stacks back exactly as they were. */
  method UndoRedoRestores(note: NoteData, now: Timestamp)
    requires note.undoStack != []
    modifies note
    ensures note.body == old(note.body)
    ensures note.undoStack == old(note.undoStack) && note.redoStack == old(note.redoStack)
  {
    ghost var before := note.State();
    var _ := note.Undo(now);
    var _ := note.Redo(now);
    UndoThenRedo(before);
  }
}
