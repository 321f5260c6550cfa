/** The sketchpad's drawing-command history as values.

    A `Pad` is the state the handlers of src/main.ts share: the committed strokes
    in drawing order, the redo stack (most recently undone stroke last, i.e. on
    top) and the pointer-drag flag. Each stroke is seen here through the points it
    holds; the object identity of strokes is kept by the App module, whose
    methods are proved to act on `Pad` exactly as the functions below do. */
module Sketch {

  /** A pointer position, copied from the event's offsets and never computed. */
  datatype Point = Point(x: int, y: int)

  /** The ordered points of one stroke. */
  type Path = seq<Point>

  datatype Pad = Pad(strokes: seq<Path>, redoStack: seq<Path>, isPainting: bool)

  /** The state at page load: no strokes, nothing to redo, not painting. */
  const Initial := Pad([], [], false)

  function Last<T>(s: seq<T>): T
    requires s != []
  {
    s[|s| - 1]
  }

  /** The multiset of every stroke the history holds, committed or undone. */
  function AllStrokes(p: Pad): multiset<Path> {
    multiset(p.strokes) + multiset(p.redoStack)
  }

  /** The undo button: the last committed stroke moves onto the redo stack. */
  function Undo(p: Pad): (r: Pad)
    ensures r.isPainting == p.isPainting
    ensures |r.strokes| + |r.redoStack| == |p.strokes| + |p.redoStack|
    ensures p.strokes == [] ==> r == p
    ensures p.strokes != [] ==>
              && r.strokes + [Last(p.strokes)] == p.strokes
              && r.redoStack == p.redoStack + [Last(p.strokes)]
  {
    if p.strokes == [] then p
    else
      var n := |p.strokes|;
      assert p.strokes == p.strokes[..n - 1] + [p.strokes[n - 1]];
      Pad(p.strokes[..n - 1], p.redoStack + [p.strokes[n - 1]], p.isPainting)
  }

  /** The redo button: the top of the redo stack moves back onto the strokes. */
  function Redo(p: Pad): (r: Pad)
    ensures r.isPainting == p.isPainting
    ensures |r.strokes| + |r.redoStack| == |p.strokes| + |p.redoStack|
    ensures p.redoStack == [] ==> r == p
    ensures p.redoStack != [] ==>
              && r.redoStack + [Last(p.redoStack)] == p.redoStack
              && r.strokes == p.strokes + [Last(p.redoStack)]
  {
    if p.redoStack == [] then p
    else
      var n := |p.redoStack|;
      assert p.redoStack == p.redoStack[..n - 1] + [p.redoStack[n - 1]];
      Pad(p.strokes + [p.redoStack[n - 1]], p.redoStack[..n - 1], p.isPainting)
  }

  /** The clear button: both lists are emptied; the drag flag is left alone. */
  function Clear(p: Pad): (r: Pad)
    ensures AllStrokes(r) == multiset{}
    ensures r.isPainting == p.isPainting
  {
    Pad([], [], p.isPainting)
  }

  /** Pointer-down at (x, y): painting starts, a new one-point stroke is
      committed after all earlier strokes and the redo stack is invalidated. */
  function MouseDown(p: Pad, x: int, y: int): (r: Pad)
    ensures r.isPainting
    ensures r.redoStack == []
    ensures |r.strokes| == |p.strokes| + 1
    ensures r.strokes[..|p.strokes|] == p.strokes
    ensures Last(r.strokes) == [Point(x, y)]
  {
    Pad(p.strokes + [[Point(x, y)]], [], true)
  }

  /** Pointer-move at (x, y): while painting, the point is appended to the last
      stroke (if there is one); nothing else changes. */
  function MouseMove(p: Pad, x: int, y: int): (r: Pad)
    ensures !p.isPainting || p.strokes == [] ==> r == p
    ensures p.isPainting && p.strokes != [] ==>
              && r.isPainting && r.redoStack == p.redoStack
              && |r.strokes| == |p.strokes|
              && (forall i :: 0 <= i < |p.strokes| - 1 ==> r.strokes[i] == p.strokes[i])
              && Last(r.strokes) == Last(p.strokes) + [Point(x, y)]
  {
    if p.isPainting && p.strokes != [] then
      var n := |p.strokes|;
      Pad(p.strokes[..n - 1] + [p.strokes[n - 1] + [Point(x, y)]], p.redoStack, true)
    else p
  }

  /** Pointer-up and pointer-leave (mouseout): painting stops; the strokes keep
      exactly the points recorded so far. */
  function Release(p: Pad): (r: Pad)
    ensures !r.isPainting
    ensures r.strokes == p.strokes && r.redoStack == p.redoStack
  {
    p.(isPainting := false)
  }

  // ---------------------------------------------------------------------------
  // Laws that relate several operations

  /** Redo undoes an undo, element for element. */
  lemma UndoThenRedo(p: Pad)
    requires p.strokes != []
    ensures Redo(Undo(p)) == p
  {
  }

  /** Undo undoes a redo, element for element. */
  lemma RedoThenUndo(p: Pad)
    requires p.redoStack != []
    ensures Undo(Redo(p)) == p
  {
  }

  /** Undo never loses or invents a stroke: the committed and undone strokes
      together are the same multiset before and after. */
  lemma UndoConservesStrokes(p: Pad)
    ensures AllStrokes(Undo(p)) == AllStrokes(p)
  {
  }

  /** Redo never loses or invents a stroke either. */
  lemma RedoConservesStrokes(p: Pad)
    ensures AllStrokes(Redo(p)) == AllStrokes(p)
  {
  }

  lemma ClearIdempotent(p: Pad)
    ensures Clear(Clear(p)) == Clear(p)
  {
  }

  /** After a new stroke begins, redo has nothing to bring back. */
  lemma MouseDownInvalidatesRedo(p: Pad, x: int, y: int)
    ensures Redo(MouseDown(p, x, y)) == MouseDown(p, x, y)
  {
  }

  /** Once painting has stopped, moves leave the strokes as they are. */
  lemma MoveAfterReleaseIsNoOp(p: Pad, x: int, y: int)
    ensures MouseMove(Release(p), x, y) == Release(p)
  {
  }

  /** Undo while the drag flag is still set is not guarded: the next move extends
      the stroke that was committed before the undone one. */
  lemma MoveAfterUndoWhilePainting(a: Path, b: Path, x: int, y: int)
    ensures MouseMove(Undo(Pad([a, b], [], true)), x, y) == Pad([a + [Point(x, y)]], [b], true)
  {
  }
}
