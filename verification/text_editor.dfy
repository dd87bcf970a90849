/**
 * The text editor with undo and redo (q-27-text-editor-undo-redo, TextEditor.java).
 *
 * The document is a list of rows; every edit is recorded as an action on the
 * undo stack and clears the redo stack. Undoing applies the action's inverse
 * (an insertion is undone by deleting the same text, a deletion by inserting
 * the deleted text back) and moves it to the redo stack; redoing re-applies
 * it. Rows are never removed.
 */
module TextEditor {
  import opened Common

  datatype Kind = Add | Del

  /** An edit: for `Add` the inserted text, for `Del` the deleted text. */
  datatype Action = Action(kind: Kind, row: nat, col: nat, payload: string)

  /** Rows, and the two stacks with their tops at index 0. */
  datatype Editor = Editor(rows: seq<string>, undo: seq<Action>, redo: seq<Action>)

  datatype Error = RowSkipped | RowOutOfRange | ColumnOutOfRange

  /** The editor after a call, and the exception the call threw, if any. */
  datatype Step = Step(editor: Editor, error: Option<Error>)

  function Empty(): (e: Editor)
    ensures e.rows == [] && Valid(e)
  {
    Editor([], [], [])
  }

  // ---------------------------------------------------------------------------
  // Actions and their inverses
  // ---------------------------------------------------------------------------

  function InsertAt(s: string, col: nat, t: string): string
    requires col <= |s|
  {
    s[..col] + t + s[col..]
  }

  function DeleteAt(s: string, col: nat, n: nat): string
    requires col + n <= |s|
  {
    s[..col] + s[col + n..]
  }

  function Inverse(a: Action): Action {
    a.(kind := if a.kind == Add then Del else Add)
  }

  /** The action can be performed on these rows and, for a deletion, removes exactly its payload. */
  predicate Applicable(rows: seq<string>, a: Action) {
    a.row < |rows| &&
    match a.kind
    case Add => a.col <= |rows[a.row]|
    case Del => a.col + |a.payload| <= |rows[a.row]| && rows[a.row][a.col..a.col + |a.payload|] == a.payload
  }

  /** What `undo`/`redo` do to the row buffer for one action. */
  function Do(rows: seq<string>, a: Action): (r: seq<string>)
    requires Applicable(rows, a)
    ensures |r| == |rows|
    ensures forall k :: 0 <= k < |rows| && k != a.row ==> r[k] == rows[k]
  {
    match a.kind
    case Add => rows[a.row := InsertAt(rows[a.row], a.col, a.payload)]
    case Del => rows[a.row := DeleteAt(rows[a.row], a.col, |a.payload|)]
  }

  /** Performing an action and then its inverse restores the rows. */
  lemma DoInverse(rows: seq<string>, a: Action)
    requires Applicable(rows, a)
    ensures Applicable(Do(rows, a), Inverse(a)) && Do(Do(rows, a), Inverse(a)) == rows
  {
    var s := rows[a.row];
    var n := |a.payload|;
    match a.kind
    case Add =>
      var t := InsertAt(s, a.col, a.payload);
      assert t[a.col..a.col + n] == a.payload;
      assert DeleteAt(t, a.col, n) == s by {
        assert t[..a.col] == s[..a.col];
        assert t[a.col + n..] == s[a.col..];
      }
    case Del =>
      var t := DeleteAt(s, a.col, n);
      assert InsertAt(t, a.col, a.payload) == s by {
        assert t[..a.col] == s[..a.col];
        assert t[a.col..] == s[a.col + n..];
        assert s == s[..a.col] + s[a.col..a.col + n] + s[a.col + n..];
      }
  }

  lemma InverseInverse(a: Action)
    ensures Inverse(Inverse(a)) == a
  {
  }

  // ---------------------------------------------------------------------------
  // History invariant
  // ---------------------------------------------------------------------------

  /** Undoing the whole stack, top first, never meets an action that does not fit. */
  predicate Undoable(rows: seq<string>, h: seq<Action>)
    decreases |h|
  {
    h == [] || (Applicable(rows, Inverse(h[0])) && Undoable(Do(rows, Inverse(h[0])), h[1..]))
  }

  /** Redoing the whole stack, top first, never meets an action that does not fit. */
  predicate Redoable(rows: seq<string>, h: seq<Action>)
    decreases |h|
  {
    h == [] || (Applicable(rows, h[0]) && Redoable(Do(rows, h[0]), h[1..]))
  }

  predicate Valid(e: Editor) {
    Undoable(e.rows, e.undo) && Redoable(e.rows, e.redo)
  }

  /** A trailing empty row changes nothing for actions on earlier rows. */
  lemma DoExtend(rows: seq<string>, a: Action)
    requires Applicable(rows, a)
    ensures Applicable(rows + [""], a) && Do(rows + [""], a) == Do(rows, a) + [""]
  {
    assert (rows + [""])[a.row] == rows[a.row];
  }

  lemma {:induction false} UndoableExtend(rows: seq<string>, h: seq<Action>)
    requires Undoable(rows, h)
    ensures Undoable(rows + [""], h)
    decreases |h|
  {
    if h != [] {
      DoExtend(rows, Inverse(h[0]));
      UndoableExtend(Do(rows, Inverse(h[0])), h[1..]);
    }
  }

  lemma {:induction false} RedoableExtend(rows: seq<string>, h: seq<Action>)
    requires Redoable(rows, h)
    ensures Redoable(rows + [""], h)
    decreases |h|
  {
    if h != [] {
      DoExtend(rows, h[0]);
      RedoableExtend(Do(rows, h[0]), h[1..]);
    }
  }

  // ---------------------------------------------------------------------------
  // Operations
  // ---------------------------------------------------------------------------

  /** `ensureRowForAdd`: the rows with `row` present, or the exception for a row that skips ahead. */
  function EnsureRowForAdd(rows: seq<string>, row: int): (r: Result<seq<string>, Error>)
    ensures r.Err? <==> row > |rows|
    ensures r.Ok? && row == |rows| ==> r.value == rows + [""]
    ensures r.Ok? && row < |rows| ==> r.value == rows
  {
    if row == |rows| then Ok(rows + [""])
    else if row < |rows| then Ok(rows)
    else Err(RowSkipped)
  }

  /** `addText`. A bad column is detected after the new row was appended, and that row stays. */
  function AddText(e: Editor, row: int, col: int, text: string): (r: Step)
    ensures row > |e.rows| ==> r == Step(e, Some(RowSkipped))
    ensures row < 0 ==> r == Step(e, Some(RowOutOfRange))
    ensures r.error.None? <==> 0 <= row <= |e.rows| && 0 <= col && (row < |e.rows| ==> col <= |e.rows[row]|) && (row == |e.rows| ==> col == 0)
    ensures r.error.None? ==>
              |r.editor.rows| == (if row == |e.rows| then |e.rows| + 1 else |e.rows|) &&
              r.editor.rows[row] == (if row < |e.rows| then e.rows[row][..col] + text + e.rows[row][col..] else text) &&
              (forall k :: 0 <= k < |e.rows| && k != row ==> r.editor.rows[k] == e.rows[k]) &&
              r.editor.undo == [Action(Add, row, col, text)] + e.undo && r.editor.redo == []
  {
    match EnsureRowForAdd(e.rows, row)
    case Err(err) => Step(e, Some(err))
    case Ok(rows) =>
      if row < 0 then Step(e, Some(RowOutOfRange))
      else if col < 0 || col > |rows[row]| then Step(e.(rows := rows), Some(ColumnOutOfRange))
      else
        var a := Action(Add, row, col, text);
        Step(Editor(Do(rows, a), [a] + e.undo, []), None)
  }

  /** `deleteText`: every bad argument is detected before anything changes. */
  function DeleteText(e: Editor, row: int, start: int, length: int): (r: Step)
    ensures r.error.Some? ==> r.editor == e
    ensures r.error.None? <==> 0 <= row < |e.rows| && 0 <= start && 0 <= length && start + length <= |e.rows[row]|
    ensures r.error.None? ==>
              |r.editor.rows| == |e.rows| &&
              r.editor.rows[row] == e.rows[row][..start] + e.rows[row][start + length..] &&
              (forall k :: 0 <= k < |e.rows| && k != row ==> r.editor.rows[k] == e.rows[k]) &&
              r.editor.undo == [Action(Del, row, start, e.rows[row][start..start + length])] + e.undo &&
              r.editor.redo == []
  {
    if row < 0 || row >= |e.rows| then Step(e, Some(RowOutOfRange))
    else if start < 0 || length < 0 || start + length > |e.rows[row]| then Step(e, Some(ColumnOutOfRange))
    else
      var a := Action(Del, row, start, e.rows[row][start..start + length]);
      Step(Editor(Do(e.rows, a), [a] + e.undo, []), None)
  }

  /** `undo`: a no-op on an empty stack; otherwise revert the top action and move it to the redo stack. */
  function Undo(e: Editor): (r: Editor)
    requires Valid(e)
    ensures e.undo == [] ==> r == e
    ensures e.undo != [] ==> r.undo == e.undo[1..] && r.redo == [e.undo[0]] + e.redo
    ensures |r.rows| == |e.rows|
  {
    if e.undo == [] then e
    else
      var a := e.undo[0];
      Editor(Do(e.rows, Inverse(a)), e.undo[1..], [a] + e.redo)
  }

  /** `redo`: a no-op on an empty stack; otherwise re-apply the top action and move it back to the undo stack. */
  function Redo(e: Editor): (r: Editor)
    requires Valid(e)
    ensures e.redo == [] ==> r == e
    ensures e.redo != [] ==> r.redo == e.redo[1..] && r.undo == [e.redo[0]] + e.undo
    ensures |r.rows| == |e.rows|
  {
    if e.redo == [] then e
    else
      var a := e.redo[0];
      Editor(Do(e.rows, a), [a] + e.undo, e.redo[1..])
  }

  /** `readLine`. */
  function ReadLine(e: Editor, row: int): (r: Result<string, Error>)
    ensures r.Ok? <==> 0 <= row < |e.rows|
    ensures r.Ok? ==> r.value == e.rows[row]
  {
    if 0 <= row < |e.rows| then Ok(e.rows[row]) else Err(RowOutOfRange)
  }

  // ---------------------------------------------------------------------------
  // Properties
  // ---------------------------------------------------------------------------

  lemma AddPreservesValid(e: Editor, row: int, col: int, text: string)
    requires Valid(e)
    ensures Valid(AddText(e, row, col, text).editor)
  {
    var r := AddText(e, row, col, text);
    if 0 <= row == |e.rows| {
      UndoableExtend(e.rows, e.undo);
      RedoableExtend(e.rows, e.redo);
    }
    if r.error.None? {
      var rows := if row == |e.rows| then e.rows + [""] else e.rows;
      var a := Action(Add, row, col, text);
      DoInverse(rows, a);
      assert r.editor.undo[1..] == e.undo;
    }
  }

  lemma DeletePreservesValid(e: Editor, row: int, start: int, length: int)
    requires Valid(e)
    ensures Valid(DeleteText(e, row, start, length).editor)
  {
    var r := DeleteText(e, row, start, length);
    if r.error.None? {
      var a := Action(Del, row, start, e.rows[row][start..start + length]);
      DoInverse(e.rows, a);
      assert r.editor.undo[1..] == e.undo;
    }
  }

  lemma UndoPreservesValid(e: Editor)
    requires Valid(e)
    ensures Valid(Undo(e))
  {
    if e.undo != [] {
      var a := e.undo[0];
      DoInverse(e.rows, Inverse(a));
      InverseInverse(a);
      var r := Undo(e);
      assert r.redo[0] == a && r.redo[1..] == e.redo;
    }
  }

  lemma RedoPreservesValid(e: Editor)
    requires Valid(e)
    ensures Valid(Redo(e))
  {
    if e.redo != [] {
      var a := e.redo[0];
      DoInverse(e.rows, a);
      var r := Redo(e);
      assert r.undo[0] == a && r.undo[1..] == e.undo;
    }
  }

  /** Redo right after undo returns the editor to where it was. */
  lemma RedoUndo(e: Editor)
    requires Valid(e) && e.undo != []
    ensures Valid(Undo(e)) && Redo(Undo(e)) == e
  {
    UndoPreservesValid(e);
    var a := e.undo[0];
    DoInverse(e.rows, Inverse(a));
    InverseInverse(a);
    assert [a] + e.undo[1..] == e.undo;
  }

  /** Undo right after redo returns the editor to where it was. */
  lemma UndoRedo(e: Editor)
    requires Valid(e) && e.redo != []
    ensures Valid(Redo(e)) && Undo(Redo(e)) == e
  {
    RedoPreservesValid(e);
    var a := e.redo[0];
    DoInverse(e.rows, a);
    assert [a] + e.redo[1..] == e.redo;
  }

  /** Undoing an insertion removes the text again; an appended row stays, empty. */
  lemma UndoAfterAdd(e: Editor, row: int, col: int, text: string)
    requires Valid(e) && AddText(e, row, col, text).error.None?
    ensures var e' := AddText(e, row, col, text).editor;
            Valid(e') &&
            Undo(e').rows == (if row == |e.rows| then e.rows + [""] else e.rows) &&
            Undo(e').undo == e.undo && Undo(e').redo == [Action(Add, row, col, text)]
  {
    AddPreservesValid(e, row, col, text);
    var rows := if row == |e.rows| then e.rows + [""] else e.rows;
    DoInverse(rows, Action(Add, row, col, text));
  }

  /** Undoing a deletion puts the deleted text back. */
  lemma UndoAfterDelete(e: Editor, row: int, start: int, length: int)
    requires Valid(e) && DeleteText(e, row, start, length).error.None?
    ensures var e' := DeleteText(e, row, start, length).editor;
            Valid(e') && Undo(e').rows == e.rows && Undo(e').undo == e.undo
  {
    DeletePreservesValid(e, row, start, length);
    DoInverse(e.rows, Action(Del, row, start, e.rows[row][start..start + length]));
  }
}
