/**
 * The read-only notepad cursor (q40-text-editor-cursor-readonly, Solution.java).
 *
 * The lines are fixed at construction; only the cursor moves. Unlike the
 * editable notepad, the column never passes the end of its line, moves that
 * would leave the document are ignored, and a page jump is all or nothing.
 */
module Cursor {

  datatype Viewer = Viewer(lines: seq<string>, perPage: nat, row: nat, col: nat)

  /** The cursor is on an existing line, at most just past its last character. */
  predicate Valid(v: Viewer) {
    0 < |v.lines| && v.row < |v.lines| && v.col <= |v.lines[v.row]| && v.perPage >= 1
  }

  /** `clampColumn`: the nearest column in `[0, lineLen]`. */
  function ClampColumn(desired: int, lineLen: nat): (c: nat)
    ensures c <= lineLen
    ensures 0 <= desired <= lineLen ==> c == desired
    ensures desired < 0 ==> c == 0
    ensures desired > lineLen ==> c == lineLen
  {
    if desired < 0 then 0 else if desired > lineLen then lineLen else desired
  }

  /** The constructor: an empty document becomes one empty line, and the page size is at least one. */
  function Create(lines: seq<string>, perPage: int): (v: Viewer)
    ensures Valid(v) && v.row == 0 && v.col == 0
    ensures v.lines == if lines == [] then [""] else lines
    ensures v.perPage == if perPage < 1 then 1 else perPage
  {
    Viewer(if lines == [] then [""] else lines, if perPage < 1 then 1 else perPage, 0, 0)
  }

  function MoveLeft(v: Viewer): (r: Viewer)
    requires Valid(v)
    ensures Valid(r) && r.lines == v.lines && r.row == v.row
    ensures r.col == if v.col > 0 then v.col - 1 else 0
  {
    if v.col > 0 then v.(col := v.col - 1) else v
  }

  function MoveRight(v: Viewer): (r: Viewer)
    requires Valid(v)
    ensures Valid(r) && r.lines == v.lines && r.row == v.row
    ensures r.col == if v.col < |v.lines[v.row]| then v.col + 1 else v.col
  {
    if v.col < |v.lines[v.row]| then v.(col := v.col + 1) else v
  }

  /** Jump to `target` keeping the column as far as that line allows. */
  function JumpTo(v: Viewer, target: nat): (r: Viewer)
    requires Valid(v) && target < |v.lines|
    ensures Valid(r) && r.lines == v.lines && r.row == target
  {
    v.(row := target, col := ClampColumn(v.col, |v.lines[target]|))
  }

  function MoveUp(v: Viewer): (r: Viewer)
    requires Valid(v)
    ensures Valid(r) && r.lines == v.lines
    ensures v.row == 0 ==> r == v
    ensures v.row > 0 ==> r.row == v.row - 1
  {
    if v.row == 0 then v else JumpTo(v, v.row - 1)
  }

  function MoveDown(v: Viewer): (r: Viewer)
    requires Valid(v)
    ensures Valid(r) && r.lines == v.lines
    ensures v.row >= |v.lines| - 1 ==> r == v
    ensures v.row < |v.lines| - 1 ==> r.row == v.row + 1
  {
    if v.row >= |v.lines| - 1 then v else JumpTo(v, v.row + 1)
  }

  function PageUp(v: Viewer): (r: Viewer)
    requires Valid(v)
    ensures Valid(r) && r.lines == v.lines
    ensures v.row < v.perPage ==> r == v
    ensures v.row >= v.perPage ==> r.row == v.row - v.perPage
  {
    if v.row - v.perPage < 0 then v else JumpTo(v, v.row - v.perPage)
  }

  function PageDown(v: Viewer): (r: Viewer)
    requires Valid(v)
    ensures Valid(r) && r.lines == v.lines
    ensures v.row + v.perPage >= |v.lines| ==> r == v
    ensures v.row + v.perPage < |v.lines| ==> r.row == v.row + v.perPage
  {
    if v.row + v.perPage >= |v.lines| then v else JumpTo(v, v.row + v.perPage)
  }

  /** `readLeft`: the characters of the current line before the cursor. */
  function ReadLeft(v: Viewer): (s: string)
    requires Valid(v)
    ensures |s| == v.col && s <= v.lines[v.row]
  {
    var line := v.lines[v.row];
    var end := if v.col < 0 then 0 else if v.col > |line| then |line| else v.col;
    line[..end]
  }

  // ---------------------------------------------------------------------------
  // Properties
  // ---------------------------------------------------------------------------

  /** The column after a vertical move is the old one if the target line is long enough, else that line's end. */
  lemma JumpKeepsColumn(v: Viewer, target: nat)
    requires Valid(v) && target < |v.lines|
    ensures JumpTo(v, target).col == if v.col <= |v.lines[target]| then v.col else |v.lines[target]|
  {
  }

  /** Moving right then left returns to the same position unless the cursor was already at the end of the line. */
  lemma LeftAfterRight(v: Viewer)
    requires Valid(v) && v.col < |v.lines[v.row]|
    ensures MoveLeft(MoveRight(v)) == v
  {
  }

  /** One more character is read after moving right inside the line. */
  lemma ReadLeftAfterRight(v: Viewer)
    requires Valid(v) && v.col < |v.lines[v.row]|
    ensures ReadLeft(MoveRight(v)) == ReadLeft(v) + [v.lines[v.row][v.col]]
  {
    var line := v.lines[v.row];
    assert line[..v.col + 1] == line[..v.col] + [line[v.col]];
  }

  /** Down then up on a line no longer than the one below returns to the same position. */
  lemma UpAfterDown(v: Viewer)
    requires Valid(v) && v.row < |v.lines| - 1
    ensures MoveUp(MoveDown(v)).row == v.row
    ensures v.col <= |v.lines[v.row + 1]| ==> MoveUp(MoveDown(v)) == v
  {
  }
}
