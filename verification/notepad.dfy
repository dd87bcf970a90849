/**
 * The notepad editor with a free-roaming cursor (q39, NotepadEditor.java).
 *
 * The document is a non-empty list of lines and a cursor (row, column). The
 * column may run past the end of its line: typing there first fills the gap
 * with '-' characters. Moving down past the last line creates a new empty
 * line; paging repeats the single-line moves.
 */
module Notepad {

  datatype Notepad = Notepad(perPage: int, lines: seq<string>, row: nat, col: nat)

  /** The cursor's row exists. */
  predicate Valid(e: Notepad) {
    0 < |e.lines| && e.row < |e.lines|
  }

  function Line(e: Notepad): string
    requires Valid(e)
  {
    e.lines[e.row]
  }

  /** The constructor: one empty line, cursor at the origin. */
  function Create(perPage: int): (e: Notepad)
    ensures Valid(e) && e.lines == [""] && e.row == 0 && e.col == 0 && e.perPage == perPage
  {
    Notepad(perPage, [""], 0, 0)
  }

  function Dashes(n: nat): (s: string)
    ensures |s| == n && forall i :: 0 <= i < n ==> s[i] == '-'
  {
    if n == 0 then "" else Dashes(n - 1) + "-"
  }

  /** The current line, hyphen-filled up to the cursor when the cursor is past its end. */
  function Padded(line: string, col: nat): (r: string)
    ensures |r| == if col > |line| then col else |line|
    ensures r[..|line|] == line
  {
    if col > |line| then line + Dashes(col - |line|) else line
  }

  function Min(a: int, b: int): int {
    if a < b then a else b
  }

  /** `readLeft`: the characters of the current line before the cursor. */
  function ReadLeft(e: Notepad): (r: string)
    requires Valid(e)
    ensures |r| == Min(e.col, |Line(e)|)
    ensures r <= Line(e)
  {
    Line(e)[..Min(e.col, |Line(e)|)]
  }

  /** `addString`: fill the gap with '-', insert at the cursor, and move the cursor past the text. */
  function AddString(e: Notepad, text: string): (r: Notepad)
    requires Valid(e)
    ensures Valid(r) && r.row == e.row && |r.lines| == |e.lines|
    ensures text == [] ==> r == e
    ensures text != [] ==> r.col == e.col + |text|
    ensures forall k :: 0 <= k < |e.lines| && k != e.row ==> r.lines[k] == e.lines[k]
    ensures text != [] && e.col <= |Line(e)| ==>
              r.lines[e.row] == Line(e)[..e.col] + text + Line(e)[e.col..]
    ensures text != [] && e.col > |Line(e)| ==>
              r.lines[e.row] == Line(e) + Dashes(e.col - |Line(e)|) + text
  {
    if text == [] then e
    else
      var line := Padded(Line(e), e.col);
      var line' := line[..e.col] + text + line[e.col..];
      e.(lines := e.lines[e.row := line'], col := e.col + |text|)
  }

  /** `deleteChar`: backspace within the line, or at column 0 drop the line and go to the end of the one above. */
  function DeleteChar(e: Notepad): (r: Notepad)
    requires Valid(e)
    ensures Valid(r)
    ensures e.row == 0 && e.col == 0 ==> r == e
    ensures e.col > 0 ==> r.row == e.row && r.col == e.col - 1 && |r.lines| == |e.lines|
    ensures 0 < e.col <= |Line(e)| ==> r.lines[e.row] == Line(e)[..e.col - 1] + Line(e)[e.col..]
    ensures e.col > |Line(e)| ==> r.lines[e.row] == Line(e)
    ensures e.col == 0 && e.row > 0 ==>
              r.lines == e.lines[..e.row] + e.lines[e.row + 1..] && r.row == e.row - 1 && r.col == |e.lines[e.row - 1]|
  {
    if e.row == 0 && e.col == 0 then e
    else if e.col > 0 then
      var line := Line(e);
      var i := e.col - 1;
      var line' := if i < |line| then line[..i] + line[i + 1..] else line;
      e.(lines := e.lines[e.row := line'], col := i)
    else
      var lines := e.lines[..e.row] + e.lines[e.row + 1..];
      e.(lines := lines, row := e.row - 1, col := |lines[e.row - 1]|)
  }

  function MoveLeft(e: Notepad): (r: Notepad)
    ensures r.lines == e.lines && r.row == e.row
    ensures r.col == if e.col > 0 then e.col - 1 else 0
  {
    if e.col > 0 then e.(col := e.col - 1) else e
  }

  function MoveRight(e: Notepad): (r: Notepad)
    ensures r.lines == e.lines && r.row == e.row && r.col == e.col + 1
  {
    e.(col := e.col + 1)
  }

  /** `moveUp`: one line up, the column clamped to the end of the line above. */
  function MoveUp(e: Notepad): (r: Notepad)
    requires Valid(e)
    ensures Valid(r) && r.lines == e.lines
    ensures e.row == 0 ==> r == e
    ensures e.row > 0 ==> r.row == e.row - 1 && r.col == Min(e.col, |e.lines[e.row - 1]|)
  {
    if e.row == 0 then e
    else
      var len := |e.lines[e.row - 1]|;
      e.(row := e.row - 1, col := if e.col > len then len else e.col)
  }

  /** `moveDown`: one line down with the column clamped, or a new empty line at column 0. */
  function MoveDown(e: Notepad): (r: Notepad)
    requires Valid(e)
    ensures Valid(r) && r.row == e.row + 1
    ensures e.row + 1 < |e.lines| ==> r.lines == e.lines && r.col == Min(e.col, |e.lines[e.row + 1]|)
    ensures e.row + 1 == |e.lines| ==> r.lines == e.lines + [""] && r.col == 0
  {
    if e.row + 1 < |e.lines| then
      var len := |e.lines[e.row + 1]|;
      e.(row := e.row + 1, col := if e.col > len then len else e.col)
    else
      e.(lines := e.lines + [""], row := e.row + 1, col := 0)
  }

  function Ups(e: Notepad, n: nat): (r: Notepad)
    requires Valid(e)
    ensures Valid(r)
    decreases n
  {
    if n == 0 then e else Ups(MoveUp(e), n - 1)
  }

  function Downs(e: Notepad, n: nat): (r: Notepad)
    requires Valid(e)
    ensures Valid(r) && |r.lines| >= |e.lines|
    decreases n
  {
    if n == 0 then e else Downs(MoveDown(e), n - 1)
  }

  /** `pageUp`: a full page of `moveUp`s, or nothing when fewer lines lie above. */
  function PageUp(e: Notepad): (r: Notepad)
    requires Valid(e)
    ensures Valid(r)
  {
    if e.perPage <= 0 || e.row < e.perPage then e else Ups(e, e.perPage)
  }

  /** `pageDown`: a page of `moveDown`s. */
  function PageDown(e: Notepad): (r: Notepad)
    requires Valid(e)
    ensures Valid(r) && |r.lines| >= |e.lines|
  {
    if e.perPage <= 0 then e else Downs(e, e.perPage)
  }

  // ---------------------------------------------------------------------------
  // Properties
  // ---------------------------------------------------------------------------

  /** After typing, the text to the left of the cursor is the old left part, the '-' fill, then the text. */
  lemma ReadLeftAfterAdd(e: Notepad, text: string)
    requires Valid(e) && text != []
    ensures ReadLeft(AddString(e, text)) == Padded(Line(e), e.col)[..e.col] + text
    ensures e.col <= |Line(e)| ==> ReadLeft(AddString(e, text)) == ReadLeft(e) + text
    ensures e.col > |Line(e)| ==> ReadLeft(AddString(e, text)) == Line(e) + Dashes(e.col - |Line(e)|) + text
  {
    var line := Padded(Line(e), e.col);
    var line' := line[..e.col] + text + line[e.col..];
    assert (line[..e.col] + text + line[e.col..])[..e.col + |text|] == line[..e.col] + text;
    if e.col > |Line(e)| {
      assert line[..e.col] == line;
    }
  }

  /** Typing one character inside the line and deleting it again restores the editor. */
  lemma DeleteUndoesAddChar(e: Notepad, c: char)
    requires Valid(e) && e.col <= |Line(e)|
    ensures DeleteChar(AddString(e, [c])) == e
  {
    var line := Line(e);
    var line' := line[..e.col] + [c] + line[e.col..];
    assert line'[..e.col] == line[..e.col];
    assert line'[e.col + 1..] == line[e.col..];
    assert line[..e.col] + line[e.col..] == line;
  }

  lemma MoveLeftRight(e: Notepad)
    ensures MoveLeft(MoveRight(e)) == e
  {
  }

  /** Going down then up returns to the same line; the column only ever shrinks. */
  lemma UpAfterDown(e: Notepad)
    requires Valid(e)
    ensures MoveUp(MoveDown(e)).row == e.row
    ensures MoveUp(MoveDown(e)).col <= e.col
  {
  }

  lemma {:induction false} UpsMoves(e: Notepad, n: nat)
    requires Valid(e) && n <= e.row
    ensures Ups(e, n).row == e.row - n && Ups(e, n).lines == e.lines && Ups(e, n).col <= e.col
    decreases n
  {
    if n > 0 {
      UpsMoves(MoveUp(e), n - 1);
    }
  }

  lemma {:induction false} DownsMoves(e: Notepad, n: nat)
    requires Valid(e)
    ensures Downs(e, n).row == e.row + n
    ensures Downs(e, n).lines[..|e.lines|] == e.lines
    ensures |Downs(e, n).lines| == if e.row + n < |e.lines| then |e.lines| else e.row + n + 1
    ensures forall k :: |e.lines| <= k < |Downs(e, n).lines| ==> Downs(e, n).lines[k] == ""
    decreases n
  {
    if n > 0 {
      var d := MoveDown(e);
      DownsMoves(d, n - 1);
      assert d.lines[..|e.lines|] == e.lines;
      var r := Downs(d, n - 1);
      assert r.lines[..|e.lines|] == r.lines[..|d.lines|][..|e.lines|];
      forall k | |e.lines| <= k < |r.lines| ensures r.lines[k] == "" {
        if k < |d.lines| {
          assert r.lines[k] == r.lines[..|d.lines|][k];
        }
      }
    }
  }

  /** A page up moves exactly one page when enough lines lie above and does nothing otherwise. */
  lemma PageUpMoves(e: Notepad)
    requires Valid(e)
    ensures e.perPage <= 0 || e.row < e.perPage ==> PageUp(e) == e
    ensures e.perPage > 0 && e.row >= e.perPage ==>
              PageUp(e).row == e.row - e.perPage && PageUp(e).lines == e.lines && PageUp(e).col <= e.col
  {
    if e.perPage > 0 && e.row >= e.perPage {
      UpsMoves(e, e.perPage);
    }
  }

  /** A page down always moves one page, appending empty lines when the document is too short. */
  lemma PageDownMoves(e: Notepad)
    requires Valid(e) && e.perPage > 0
    ensures PageDown(e).row == e.row + e.perPage
    ensures PageDown(e).lines[..|e.lines|] == e.lines
    ensures forall k :: |e.lines| <= k < |PageDown(e).lines| ==> PageDown(e).lines[k] == ""
    ensures |PageDown(e).lines| == if e.row + e.perPage < |e.lines| then |e.lines| else e.row + e.perPage + 1
  {
    DownsMoves(e, e.perPage);
  }
}
