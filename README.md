# Note entity of a desktop note-taking application, in Dafny

This project models the note entity `NoteData` of a Kotlin/JavaFX notes
application, and the search bar's filter loop that hides the notes whose
text does not contain a query.

A note has an id, a title, an HTML body, creation and edit dates, an
"active" flag (the note selected in the editor) and a "display" flag (cleared
by the search filter). Each note also keeps snapshot-based undo/redo: two
stacks of `(TextChange, body)` pairs. `addToUndoStack(kind)` pushes the
current body. `undo` pops the top entry, pushes the inverse kind paired with
the current body onto the redo stack, and restores the popped snapshot.
`redo` is its mirror image. `emptyRedo` is the only thing that empties the
redo stack whatever its size (`redo` pops one entry at a time), so keeping
the history linear is the caller's job. Title, body and active-flag changes notify the
registered invalidation and change listeners; the display flag changes
silently.

Layout, one module per concern:

- `text_change.dfy` (`TextChanges`): the twelve edit kinds and the table
  `Inverse`. The source writes the table out twice, once in `undo` and once
  in `redo`; here it is defined once.
- `strings.dfy` (`Strings`): Kotlin's `indexOf`, `contains` and `take`.
- `markup.dfy` (`Markup`): `changeBodyBackgroundColor`, as written and as
  corrected (see Findings).
- `history.dfy` (`UndoHistory`): the body and both stacks as a value, with
  `Record`, `Undo`, `Redo`, `ClearRedo`, and the laws relating them.
- `note_data.dfy` (`Notes`): the class `NoteData`. Its fields are updated in
  place. Its undo/redo methods are proved to act on `State()` exactly as the
  `UndoHistory` functions do, so those laws carry over to the class.
- `search_bar.dfy` (`Search`): the `stringMatch` loop.

`NoteData.ChangeBodyBackgroundColor` is a function of the body: it returns new
markup and never changes the note. It is the code as written
(`Markup.RecolorAsWritten`); `Markup.Recolor` is the repaired definition
described under Findings.

Behaviour of the code that the model keeps as it is:

- Missing anchors in `changeBodyBackgroundColor`: when a `substring` index is
  out of range the code throws, and when there is no `<body` at all it
  splices the attribute in after the fourth character.
- The redo stack is emptied wholesale only by `emptyRedo`; recording an edit
  or setting the body leaves it alone.
- Both stacks are unbounded lists.

## Model

| member | source | states |
|---|---|---|
| TextChanges.InverseInvolutive | shared/src/main/kotlin/notes/shared/model/NoteData.kt:202-249 | the inverse of the inverse of every kind is that kind (the tables in `undo` and `redo` are the same text, so one `Inverse` models both) |
| TextChanges.InverseIsPairing | shared/src/main/kotlin/notes/shared/model/NoteData.kt:15-28 | the table is one-to-one and has no fixed point; every kind is paired with its adding/removing counterpart |
| TextChanges.InverseTotal | shared/src/main/kotlin/notes/shared/model/NoteData.kt:15-28 | the list of all twelve kinds has no duplicates and holds every kind and its inverse |
| Strings.IndexFrom | shared/src/main/kotlin/notes/shared/model/NoteData.kt:143-147 | the result is -1 or an occurrence at or after the start, and no occurrence lies between the start and it |
| Strings.IndexOfIsFirst | shared/src/main/kotlin/notes/shared/model/NoteData.kt:143-147 | `indexOf` is -1 exactly when the pattern never occurs; otherwise it is the first occurrence |
| Strings.ContainsIff | application/src/main/kotlin/notes/view/SearchBar.kt:30 | `contains` holds exactly when the query occurs somewhere in the text |
| Strings.ContainsEmpty | application/src/main/kotlin/notes/view/SearchBar.kt:30 | every text contains the empty query |
| Strings.Take | shared/src/main/kotlin/notes/shared/model/NoteData.kt:163 | `take(n)` is a prefix of at most n characters; it is exactly n long unless the text is shorter, and then it is the whole text |
| Markup.RecolorInsertsStyle | shared/src/main/kotlin/notes/shared/model/NoteData.kt:146-151 | no style yet and `<body` present: exactly the style attribute is inserted after `<body`, cutting it out gives back the input, and the tag carries the colour |
| Markup.RecolorWithoutBodyTag | shared/src/main/kotlin/notes/shared/model/NoteData.kt:147-150 | with no `<body`, the code as written and the repaired version agree: inputs shorter than 4 characters throw; longer ones get exactly the style attribute spliced in after the fourth character, and cutting it out gives back the input |
| Markup.RecolorReplacesStyle | shared/src/main/kotlin/notes/shared/model/NoteData.kt:152-156 | style present: it throws exactly when `contenteditable=` is missing; otherwise the text before the tag's end and from `contenteditable=` on is kept, and the tag carries the colour (corrected version) |
| Markup.RecolorAsWrittenDropsStyle | shared/src/main/kotlin/notes/shared/model/NoteData.kt:152-156 | the code as written, when a style is present, splices in the bare `'background-color: …;'` directly followed by the text from `contenteditable=` on (no space), leaving a body tag that no longer starts `<body style=` |
| Markup.RecolorAsWrittenOutcome | shared/src/main/kotlin/notes/shared/model/NoteData.kt:142-157 | the code as written, branch by branch: no style yet with a `<body`: the coloured style is inserted and cutting it out gives back the input; no `<body`: throws exactly below 4 characters; style present: throws exactly when `contenteditable=` is missing, otherwise keeps the text up to the tag's end and drops `style=` |
| UndoHistory.EmptyStacksAreNoops | shared/src/main/kotlin/notes/shared/model/NoteData.kt:197-198 | undo on an empty undo stack, and redo on an empty redo stack, change nothing and return null; otherwise they return the restored body |
| UndoHistory.UndoThenRedo | shared/src/main/kotlin/notes/shared/model/NoteData.kt:197-321 | a successful undo followed by redo restores the body and both stacks exactly |
| UndoHistory.RedoThenUndo | shared/src/main/kotlin/notes/shared/model/NoteData.kt:197-321 | a successful redo followed by undo restores the body and both stacks exactly |
| UndoHistory.MovesOneEntry | shared/src/main/kotlin/notes/shared/model/NoteData.kt:199-249 | undo and redo keep the total size of both stacks, and the entry they push is the inverse kind paired with the replaced body |
| UndoHistory.UndoAfterRecord | shared/src/main/kotlin/notes/shared/model/NoteData.kt:258-260 | undo right after `addToUndoStack` gives back the body and undo stack; only the redo stack grows |
| UndoHistory.EditsKeepRedo | shared/src/main/kotlin/notes/shared/model/NoteData.kt:258-325 | recording, setting the body and undo never remove redo entries; redo pops exactly one; `emptyRedo` clears it |
| UndoHistory.SnapshotsAt | shared/src/main/kotlin/notes/shared/model/NoteData.kt:258-260 | the i-th entry a run of edits pushes has that edit's kind and the body the edit replaced |
| UndoHistory.UndoNPops | shared/src/main/kotlin/notes/shared/model/NoteData.kt:197-256 | m undos pop exactly the top m undo entries, and the body is the snapshot of the last one popped |
| UndoHistory.EditAllPushes | shared/src/main/kotlin/notes/shared/model/NoteData.kt:258-260 | a run of record-then-set-body edits pushes one snapshot per edit onto the undo stack and leaves the redo stack alone |
| UndoHistory.EditsUndone | shared/src/main/kotlin/notes/shared/model/NoteData.kt:197-260 | after any run of n edits (n = 0 included), n undos restore the original body and undo stack |
| UndoHistory.EditsRoundTrip | shared/src/main/kotlin/notes/shared/model/NoteData.kt:197-260 | after n edits, the k-th undo returns the body from before the matching edit |
| UndoHistory.BoldExample | shared/src/main/kotlin/notes/shared/model/NoteData.kt:219-225 | record BOLD on b0 and set b1: undo returns b0 and pushes (UNBOLD, b1); redo then returns b1 |
| Notes.Live | shared/src/main/kotlin/notes/shared/model/NoteData.kt:71-72 | a notification reaches every registered non-null listener and nothing else; with no nulls, the i-th handle reached is the i-th listener |
| Notes.LiveConcat | shared/src/main/kotlin/notes/shared/model/NoteData.kt:71-72 | the list is visited front to back: the handles reached from `a + b` are those from `a`, then those from `b`, keeping order and repeated registrations |
| Notes.RemoveFirst | shared/src/main/kotlin/notes/shared/model/NoteData.kt:53-55 | removing an unregistered listener changes nothing; otherwise exactly one entry goes |
| Notes.RemoveFirstCutsOne | shared/src/main/kotlin/notes/shared/model/NoteData.kt:53-55 | removal cuts out the first position holding the listener and keeps the others in order |
| Notes.NoteData.constructor | shared/src/main/kotlin/notes/shared/model/NoteData.kt:30-41 | a new note has the skeleton body, both dates set to now, is inactive and displayed, and has empty stacks and listener lists |
| Notes.NoteData.Restore | shared/src/main/kotlin/notes/shared/model/NoteData.kt:43-47 | a restored note has the given body and dates |
| Notes.NoteData.AddChangeListener | shared/src/main/kotlin/notes/shared/model/NoteData.kt:49 | appends the listener to the change listeners |
| Notes.NoteData.AddInvalidationListener | shared/src/main/kotlin/notes/shared/model/NoteData.kt:51 | appends the listener to the invalidation listeners |
| Notes.NoteData.RemoveChangeListener | shared/src/main/kotlin/notes/shared/model/NoteData.kt:53 | removes the first occurrence, or does nothing if the listener is not registered |
| Notes.NoteData.RemoveInvalidationListener | shared/src/main/kotlin/notes/shared/model/NoteData.kt:55 | removes the first occurrence, or does nothing if the listener is not registered |
| Notes.NoteData.Notify | shared/src/main/kotlin/notes/shared/model/NoteData.kt:71-72 | one round reaches the invalidation listeners, then the change listeners, in registration order |
| Notes.NoteData.SetNoteTitle | shared/src/main/kotlin/notes/shared/model/NoteData.kt:61-73 | the empty title becomes "New Note", any other is kept; the title is never empty afterwards; the edit date is updated and listeners notified |
| Notes.NoteData.ChangeNoteTitle | shared/src/main/kotlin/notes/shared/model/NoteData.kt:74-79 | sets the title as given, with no fallback and no date change, and notifies |
| Notes.NoteData.SetNoteBody | shared/src/main/kotlin/notes/shared/model/NoteData.kt:83-89 | replaces the body, updates the edit date, notifies, and touches neither stack |
| Notes.NoteData.ChangeNoteBody | shared/src/main/kotlin/notes/shared/model/NoteData.kt:91-96 | replaces the body and notifies, without a date change |
| Notes.NoteData.ChangeBodyBackgroundColor | shared/src/main/kotlin/notes/shared/model/NoteData.kt:142-157 | reads the body and changes nothing; no style yet with a `<body`: the result is one attribute longer and its tag carries the colour; no `<body`: throws exactly below 4 characters; style present: throws exactly when `contenteditable=` is missing, otherwise the tag no longer starts `<body style=` |
| Notes.NoteData.Preview | shared/src/main/kotlin/notes/shared/model/NoteData.kt:163 | the preview is a prefix of the extracted text, at most 100 characters, and exactly 100 unless the text is shorter |
| Notes.NoteData.SetActive | shared/src/main/kotlin/notes/shared/model/NoteData.kt:175-180 | sets the active flag and notifies |
| Notes.NoteData.SetInactive | shared/src/main/kotlin/notes/shared/model/NoteData.kt:182-187 | clears the active flag and notifies |
| Notes.NoteData.DoDisplay | shared/src/main/kotlin/notes/shared/model/NoteData.kt:189-191 | sets the display flag and changes nothing else, without notifying |
| Notes.NoteData.NotDisplay | shared/src/main/kotlin/notes/shared/model/NoteData.kt:193-195 | clears the display flag and changes nothing else, without notifying |
| Notes.NoteData.AddToUndoStack | shared/src/main/kotlin/notes/shared/model/NoteData.kt:258-260 | appends exactly (kind, body) to the undo stack; body and redo stack are unchanged |
| Notes.NoteData.EmptyRedo | shared/src/main/kotlin/notes/shared/model/NoteData.kt:323-325 | empties the redo stack and touches nothing else |
| Notes.NoteData.Undo | shared/src/main/kotlin/notes/shared/model/NoteData.kt:197-256 | empty undo stack: returns null, no change. Otherwise: pops (k, s), pushes (Inverse(k), old body) onto redo, sets the body to s through setNoteBody, returns s |
| Notes.NoteData.Redo | shared/src/main/kotlin/notes/shared/model/NoteData.kt:262-321 | the mirror image of Undo, from the redo stack to the undo stack |
| Notes.UndoRedoRestores | shared/src/main/kotlin/notes/shared/model/NoteData.kt:197-321 | on a note with a non-empty undo stack, undo then redo leaves the body and both stacks as they were |
| Search.StringMatch | application/src/main/kotlin/notes/view/SearchBar.kt:27-37 | afterwards each note is displayed exactly when its text contains the query, so every note is shown for the empty query; only the display flags change, and the old flags do not matter, so rerunning is idempotent |

## Findings

| source | as written | input that shows it | evidently intended | confidence | as-written member | corrected member |
|---|---|---|---|---|---|---|
| shared/src/main/kotlin/notes/shared/model/NoteData.kt:155 | when the body tag already has a style, the code splices in `" 'background-color: c;'"`. That drops the attribute name `style=` and the space before `contenteditable=` | the skeleton body recoloured once, `<body style='background-color: silver;' contenteditable="true">…`, recoloured again with `white`, yields `<body 'background-color: white;'contenteditable="true">…`. A third recolouring then takes the "no style yet" branch | re-emit the attribute exactly as the other branch does: `" style='background-color: c;' "` | high; not executed | Markup.RecolorAsWrittenDropsStyle | Markup.RecolorReplacesStyle |

The note keeps the code's behaviour: `NoteData.ChangeBodyBackgroundColor` is
`Markup.RecolorAsWritten`. `Markup.Recolor` is the repaired definition, with
the repaired property proved in `Markup.RecolorReplacesStyle`.

## Left out

- GUI lookups. `setDateHTMLEditor`, `setTitleHTMLEditor` and
  `clearTitleAndDateHTMLEditor` reach into JavaFX toolbars, so they are not
  modelled. `SetNoteBody` omits its call to `setDateHTMLEditor`.
- Text extraction. `getText` uses the Jsoup HTML parser, which is a foreign
  library. It is a function parameter `text: string -> string` of
  `NoteData.Preview` and `Search.StringMatch`. Whether the preview is free of
  markup depends on that library, so it is not stated.
- Clock and date handling. `LocalDateTime.now()` becomes a `now` parameter.
  The secondary constructor takes dates that are already parsed.
  `LocalDateTime.parse`, and the `yyyy-MM-dd HH:mm:ss` formatting in
  `getDateCreated`/`getDateEdited`, are not modelled.
- Listener callbacks. What `invalidated` and `changed` do is arbitrary
  JavaFX code. The model records only which listeners each round reaches, in
  the ghost field `notified`. A listener that changes the note, or its
  listener list, during a round is not modelled.
- Listener identity. Listeners are numbered handles or `Null`. Object
  identity becomes equality of handles.
- Trivial getters. `getValue`, `get`, `getHTML` and `getNoteTitle` return
  `this`, `body` or `title`, and need no model of their own.
- Character width. Kotlin strings are UTF-16 code units; they are modelled
  as sequences of Dafny characters.
- Exceptions. `changeBodyBackgroundColor` can throw
  `StringIndexOutOfBoundsException`. The model returns the value
  `IndexOutOfBounds` instead.
- Console output. `println` and `print` calls are dropped.
- Other files. `Menubar.kt` only forwards to
  `undo`/`redo`/`setNoteBody`/`changeBodyBackgroundColor`. `NoteList.kt` and
  `Main.kt` build widgets and windows. None of the three is modelled.
- The note list. In `Search.StringMatch` the `ObservableList` is a sequence
  of note references, and list-change events are not modelled.
