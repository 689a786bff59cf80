/** The value-level meaning of a note's snapshot-based undo/redo: the current
    body and two stacks of (kind, snapshot) entries, the top of each stack at
    the end of its sequence. `Notes.NoteData` keeps the same three things in
    fields and its methods are proved to act as the functions below. */
module UndoHistory {
  import opened TextChanges

  /** Kotlin's `Pair<TextChange, String>`: the kind of edit and a whole-body snapshot. */
  datatype Entry = Entry(kind: TextChange, snapshot: string)

  datatype History = History(body: string, undo: seq<Entry>, redo: seq<Entry>)

  datatype Option<T> = None | Some(value: T)

  /** `addToUndoStack(kind)`: push the current body, tagged with `kind`. */
  function Record(h: History, kind: TextChange): History {
    h.(undo := h.undo + [Entry(kind, h.body)])
  }

  /** `setNoteBody` / `changeNoteBody`, as far as the history is concerned. */
  function SetBody(h: History, body: string): History {
    h.(body := body)
  }

  /** `emptyRedo`. */
  function ClearRedo(h: History): History {
    h.(redo := [])
  }

  /** `undo`: pop the top undo entry, push its inverse kind paired with the
      current body onto the redo stack, and restore the popped snapshot. */
  function Undo(h: History): History {
    if h.undo == [] then h
    else
      var top := h.undo[|h.undo| - 1];
      History(top.snapshot, h.undo[..|h.undo| - 1], h.redo + [Entry(Inverse(top.kind), h.body)])
  }

  /** `redo`: the mirror image of `Undo`, from the redo stack to the undo stack. */
  function Redo(h: History): History {
    if h.redo == [] then h
    else
      var top := h.redo[|h.redo| - 1];
      History(top.snapshot, h.undo + [Entry(Inverse(top.kind), h.body)], h.redo[..|h.redo| - 1])
  }

  /** What `undo` returns: null on an empty stack, else the restored body. */
  function UndoResult(h: History): Option<string> {
    if h.undo == [] then None else Some(h.undo[|h.undo| - 1].snapshot)
  }

  /** What `redo` returns. */
  function RedoResult(h: History): Option<string> {
    if h.redo == [] then None else Some(h.redo[|h.redo| - 1].snapshot)
  }

  /** The undoable edit the view layer performs: record, then replace the body. */
  function Edit(h: History, e: Entry): History {
    SetBody(Record(h, e.kind), e.snapshot)
  }

  /** A run of edits, the i-th of kind `es[i].kind` leaving body `es[i].snapshot`. */
  function EditAll(h: History, es: seq<Entry>): History
    decreases |es|
  {
    if es == [] then h else EditAll(Edit(h, es[0]), es[1..])
  }

  /** `n` successive undos. */
  function UndoN(h: History, n: nat): History
    decreases n
  {
    if n == 0 then h else UndoN(Undo(h), n - 1)
  }

  /** The undo entries a run of edits pushes, starting from body `b`: each edit
      records the body it is about to replace. */
  function Snapshots(b: string, es: seq<Entry>): (r: seq<Entry>)
    ensures |r| == |es|
    decreases |es|
  {
    if es == [] then [] else [Entry(es[0].kind, b)] + Snapshots(es[0].snapshot, es[1..])
  }

  /** The i-th pushed entry has the i-th edit's kind and the body before it. */
  lemma {:induction false} SnapshotsAt(b: string, es: seq<Entry>, i: nat)
    requires i < |es|
    ensures Snapshots(b, es)[i] == Entry(es[i].kind, if i == 0 then b else es[i - 1].snapshot)
    decreases i
  {
    if i > 0 {
      SnapshotsAt(es[0].snapshot, es[1..], i - 1);
      assert es[1..][i - 1] == es[i];
      if i > 1 {
        assert es[1..][i - 2] == es[i - 1];
      }
    }
  }

  /** Undo and redo on an empty stack change nothing and return null. */
  lemma EmptyStacksAreNoops(h: History)
    ensures h.undo == [] ==> Undo(h) == h && UndoResult(h) == None
    ensures h.redo == [] ==> Redo(h) == h && RedoResult(h) == None
    ensures h.undo != [] ==> UndoResult(h) == Some(Undo(h).body)
    ensures h.redo != [] ==> RedoResult(h) == Some(Redo(h).body)
  {
  }

  /** A successful undo followed by a redo restores body and both stacks exactly. */
  lemma UndoThenRedo(h: History)
    requires h.undo != []
    ensures Redo(Undo(h)) == h
  {
    var top := h.undo[|h.undo| - 1];
    InverseInvolutive(top.kind);
    assert h.undo[..|h.undo| - 1] + [top] == h.undo;
  }

  /** A successful redo followed by an undo restores body and both stacks exactly. */
  lemma RedoThenUndo(h: History)
    requires h.redo != []
    ensures Undo(Redo(h)) == h
  {
    var top := h.redo[|h.redo| - 1];
    InverseInvolutive(top.kind);
    assert h.redo[..|h.redo| - 1] + [top] == h.redo;
  }

  /** Undo and redo move one entry between the stacks: the total is preserved,
      and the entry that arrives is the inverse kind with the replaced body. */
  lemma MovesOneEntry(h: History)
    ensures |Undo(h).undo| + |Undo(h).redo| == |h.undo| + |h.redo|
    ensures |Redo(h).undo| + |Redo(h).redo| == |h.undo| + |h.redo|
    ensures h.undo != [] ==>
      Undo(h).redo == h.redo + [Entry(Inverse(h.undo[|h.undo| - 1].kind), h.body)]
    ensures h.redo != [] ==>
      Redo(h).undo == h.undo + [Entry(Inverse(h.redo[|h.redo| - 1].kind), h.body)]
  {
  }

  /** Undoing right after recording returns the body and undo stack to where
      they were; only the redo stack remembers it. */
  lemma UndoAfterRecord(h: History, kind: TextChange)
    ensures Undo(Record(h, kind)) == h.(redo := h.redo + [Entry(Inverse(kind), h.body)])
  {
    assert Record(h, kind).undo[..|h.undo|] == h.undo;
  }

  /** Recording, setting the body and undoing never remove redo entries; redo
      pops exactly one; `ClearRedo` empties the stack. So after an edit the
      caller must clear it to keep the history linear. */
  lemma EditsKeepRedo(h: History, kind: TextChange, b: string)
    ensures Record(h, kind).redo == h.redo && SetBody(h, b).redo == h.redo
    ensures h.redo <= Undo(h).redo
    ensures h.redo != [] ==> Redo(h).redo == h.redo[..|h.redo| - 1]
    ensures ClearRedo(h).redo == [] && ClearRedo(h).body == h.body && ClearRedo(h).undo == h.undo
  {
  }

  /** `m` undos on a history whose undo stack ends with `e` pop the last `m`
      entries of `e`, and the body is the last one popped. */
  lemma {:induction false} UndoNPops(h: History, u: seq<Entry>, e: seq<Entry>, m: nat)
    requires h.undo == u + e && m <= |e|
    ensures UndoN(h, m).undo == u + e[..|e| - m]
    ensures m > 0 ==> UndoN(h, m).body == e[|e| - m].snapshot
    decreases m
  {
    if m > 0 {
      var e' := e[..|e| - 1];
      assert h.undo[..|h.undo| - 1] == u + e';
      assert Undo(h).undo == u + e';
      UndoNPops(Undo(h), u, e', m - 1);
      assert e'[..|e'| - (m - 1)] == e[..|e| - m];
    }
  }

  /** A run of edits leaves the original undo stack with one entry per edit on
      top, each holding the body that edit replaced. */
  lemma {:induction false} EditAllPushes(h: History, es: seq<Entry>)
    ensures EditAll(h, es).undo == h.undo + Snapshots(h.body, es)
    ensures EditAll(h, es).redo == h.redo
    ensures es != [] ==> EditAll(h, es).body == es[|es| - 1].snapshot
    ensures es == [] ==> EditAll(h, es).body == h.body
    decreases |es|
  {
    if es != [] {
      var h' := Edit(h, es[0]);
      assert h' == History(es[0].snapshot, h.undo + [Entry(es[0].kind, h.body)], h.redo);
      EditAllPushes(h', es[1..]);
      assert EditAll(h, es) == EditAll(h', es[1..]);
      assert Snapshots(h.body, es) == [Entry(es[0].kind, h.body)] + Snapshots(h'.body, es[1..]);
      assert h'.undo + Snapshots(h'.body, es[1..]) == h.undo + Snapshots(h.body, es);
      if |es| > 1 {
        assert es[1..][|es[1..]| - 1] == es[|es| - 1];
      }
    }
  }

  /** The round-trip law: after any run of edits, undoing as many times as
      there were edits returns the original body and undo stack. */
  lemma EditsUndone(h: History, es: seq<Entry>)
    ensures UndoN(EditAll(h, es), |es|).body == h.body
    ensures UndoN(EditAll(h, es), |es|).undo == h.undo
  {
    EditAllPushes(h, es);
    UndoNPops(EditAll(h, es), h.undo, Snapshots(h.body, es), |es|);
    if es != [] {
      SnapshotsAt(h.body, es, 0);
    }
  }

  /** The intermediate steps of the round trip: the k-th undo (1-based) after
      n edits restores the body the (n-k+1)-th edit replaced. */
  lemma EditsRoundTrip(h: History, es: seq<Entry>, k: nat)
    requires 0 < k <= |es|
    ensures UndoN(EditAll(h, es), k).body == Snapshots(h.body, es)[|es| - k].snapshot
    ensures k < |es| ==> UndoN(EditAll(h, es), k).body == es[|es| - k - 1].snapshot
  {
    var s := Snapshots(h.body, es);
    EditAllPushes(h, es);
    UndoNPops(EditAll(h, es), h.undo, s, k);
    SnapshotsAt(h.body, es, |es| - k);
  }

  /** An example: record BOLD on body `b0`, set body `b1`; undo returns
      `b0` and pushes `(UNBOLD, b1)`; redo then returns `b1`. */
  lemma BoldExample(b0: string, b1: string)
    ensures var h := Edit(History(b0, [], []), Entry(Bold, b1));
      && UndoResult(h) == Some(b0)
      && Undo(h) == History(b0, [], [Entry(Unbold, b1)])
      && RedoResult(Undo(h)) == Some(b1)
      && Redo(Undo(h)) == History(b1, [Entry(Bold, b0)], [])
  {
  }
}
