/** The sketchpad's module-level state and its event handlers, in place.

    Strokes are objects: `drag` appends to the points of the very stroke that the
    strokes list (or, after an undo, the redo stack) refers to. `Model()` reads
    the state as a `Sketch.Pad`, and every handler is proved to change it exactly
    as the corresponding function of the Sketch module does, and to draw exactly
    what `Session.Output` says. */
module App {
  import opened Sketch
  import opened Canvas
  import Session

  /** No object occurs twice. */
  ghost predicate Distinct<T>(s: seq<T>) {
    forall i, j :: 0 <= i < j < |s| ==> s[i] != s[j]
  }

  /** No object occurs in both. */
  ghost predicate Disjoint<T>(a: seq<T>, b: seq<T>) {
    forall i, j :: 0 <= i < |a| && 0 <= j < |b| ==> a[i] != b[j]
  }

  /** A stroke command: an ordered list of points that grows while dragging. */
  class Stroke {
    var points: seq<Point>

    /** createStroke: a stroke holding just its starting point. */
    constructor (startX: int, startY: int)
      ensures points == [Point(startX, startY)]
    {
      points := [Point(startX, startY)];
    }

    /** drag: the point goes at the end; the earlier points keep their order. */
    method Drag(x: int, y: int)
      modifies this
      ensures |points| == |old(points)| + 1
      ensures points[..|old(points)|] == old(points)
      ensures points[|old(points)|] == Point(x, y)
    {
      points := points + [Point(x, y)];
    }

    /** display: begin a path, then a line to each point followed by a stroke. */
    method Display() returns (ops: seq<DrawOp>)
      ensures ops == DisplayOps(points)
    {
      ops := [BeginPath];
      var i := 0;
      while i < |points|
        invariant 0 <= i <= |points|
        invariant ops == DisplayOps(points[..i])
      {
        assert points[..i + 1][..i] == points[..i];
        ops := ops + [LineTo(points[i]), StrokePath];
        i := i + 1;
      }
      assert points[..i] == points;
    }
  }

  /** The points of each stroke, in list order. */
  ghost function PathsOf(ss: seq<Stroke>): (r: seq<Path>)
    reads ss
    ensures |r| == |ss|
  {
    if ss == [] then [] else PathsOf(ss[..|ss| - 1]) + [ss[|ss| - 1].points]
  }

  lemma {:induction false} PathsOfAt(ss: seq<Stroke>, i: nat)
    requires i < |ss|
    ensures PathsOf(ss)[i] == ss[i].points
  {
    if i < |ss| - 1 {
      PathsOfAt(ss[..|ss| - 1], i);
    }
  }

  lemma PathsOfPrefix(ss: seq<Stroke>, k: nat)
    requires k <= |ss|
    ensures PathsOf(ss[..k]) == PathsOf(ss)[..k]
  {
    forall i | 0 <= i < k ensures PathsOf(ss[..k])[i] == PathsOf(ss)[i] {
      PathsOfAt(ss[..k], i);
      PathsOfAt(ss, i);
    }
  }

  lemma PathsOfPush(ss: seq<Stroke>, s: Stroke)
    ensures PathsOf(ss + [s]) == PathsOf(ss) + [s.points]
  {
    assert (ss + [s])[..|ss|] == ss;
  }

  /** One more stroke displayed extends the replay of the strokes before it. */
  lemma RedrawStep(ss: seq<Stroke>, i: nat, ops: seq<DrawOp>, d: seq<DrawOp>)
    requires i < |ss|
    requires ops == ClearCanvas() + Replay(PathsOf(ss[..i]))
    requires d == DisplayOps(ss[i].points)
    ensures ops + d == ClearCanvas() + Replay(PathsOf(ss[..i + 1]))
  {
    assert ss[..i + 1][..i] == ss[..i];
  }

  /** Moving the last stroke of `a` onto the end of `b` keeps every stroke in
      one place. */
  lemma MoveLastKeepsDistinct(a: seq<Stroke>, b: seq<Stroke>)
    requires a != [] && Distinct(a) && Distinct(b) && (Disjoint(a, b) || Disjoint(b, a))
    ensures Distinct(a[..|a| - 1]) && Distinct(b + [Last(a)])
    ensures Disjoint(a[..|a| - 1], b + [Last(a)]) && Disjoint(b + [Last(a)], a[..|a| - 1])
  {
  }

  class Sketchpad {
    var strokes: seq<Stroke>
    var redoStack: seq<Stroke>
    var isPainting: bool

    /** A stroke is in at most one place: no two entries of the strokes list and
        the redo stack are the same stroke. */
    ghost predicate Valid()
      reads this
    {
      Distinct(strokes) && Distinct(redoStack) && Disjoint(strokes, redoStack)
    }

    ghost function Model(): Pad
      reads this, strokes, redoStack
    {
      Pad(PathsOf(strokes), PathsOf(redoStack), isPainting)
    }

    constructor ()
      ensures Valid()
      ensures strokes == [] && redoStack == [] && !isPainting
      ensures Model() == Initial
    {
      strokes, redoStack, isPainting := [], [], false;
    }

    /** getLastStroke: null exactly when there are no strokes, else the last one. */
    function GetLastStroke(): (r: Stroke?)
      reads this
      ensures r == null <==> strokes == []
      ensures r != null ==> r == Last(strokes)
    {
      if |strokes| > 0 then strokes[|strokes| - 1] else null
    }

    /** The drawing-changed listener. */
    method Redraw() returns (ops: seq<DrawOp>)
      ensures ops == Render(Model().strokes)
    {
      ops := ClearCanvas();
      var i := 0;
      while i < |strokes|
        invariant 0 <= i <= |strokes|
        invariant ops == ClearCanvas() + Replay(PathsOf(strokes[..i]))
      {
        var d := strokes[i].Display();
        RedrawStep(strokes, i, ops, d);
        ops := ops + d;
        i := i + 1;
      }
      assert strokes[..i] == strokes;
    }

    /** What redo does to the lists when there is something to redo. */
    method MoveTopToStrokes()
      requires Valid() && redoStack != []
      modifies this
      ensures Valid()
      ensures redoStack + [Last(old(redoStack))] == old(redoStack)
      ensures strokes == old(strokes) + [Last(old(redoStack))]
      ensures isPainting == old(isPainting)
      ensures Model() == Sketch.Redo(old(Model()))
    {
      var n := |redoStack|;
      var redoStroke := redoStack[n - 1];
      ghost var before := Model();
      MoveLastKeepsDistinct(redoStack, strokes);
      PathsOfPrefix(redoStack, n - 1);
      PathsOfPush(strokes, redoStroke);
      PathsOfAt(redoStack, n - 1);
      ghost var kept := PathsOf(redoStack[..n - 1]);
      ghost var redone := PathsOf(strokes + [redoStroke]);
      assert redoStack[..n - 1] + [redoStroke] == redoStack;
      redoStack := redoStack[..n - 1];
      strokes := strokes + [redoStroke];
      assert Model() == Pad(redone, kept, before.isPainting);
    }

    /** The redo button. */
    method Redo() returns (ops: seq<DrawOp>)
      requires Valid()
      modifies this
      ensures Valid()
      ensures old(redoStack) == [] ==> strokes == old(strokes) && redoStack == []
      ensures old(redoStack) != [] ==>
                && redoStack + [Last(old(redoStack))] == old(redoStack)
                && strokes == old(strokes) + [Last(old(redoStack))]
      ensures isPainting == old(isPainting)
      ensures Model() == Sketch.Redo(old(Model()))
      ensures ops == Session.Output(old(Model()), Session.RedoClick)
    {
      if |redoStack| > 0 {
        ghost var before := Model();
        assert before.redoStack != [];
        MoveTopToStrokes();
        ghost var after := Model();
        ops := Redraw();
        assert Model() == after;
      } else {
        ops := [];
      }
    }

    /** What undo does to the lists when there is something to undo. */
    method MoveLastToRedo()
      requires Valid() && strokes != []
      modifies this
      ensures Valid()
      ensures strokes + [Last(old(strokes))] == old(strokes)
      ensures redoStack == old(redoStack) + [Last(old(strokes))]
      ensures isPainting == old(isPainting)
      ensures Model() == Sketch.Undo(old(Model()))
    {
      var n := |strokes|;
      var undoStroke := strokes[n - 1];
      ghost var before := Model();
      MoveLastKeepsDistinct(strokes, redoStack);
      PathsOfPrefix(strokes, n - 1);
      PathsOfPush(redoStack, undoStroke);
      PathsOfAt(strokes, n - 1);
      ghost var kept := PathsOf(strokes[..n - 1]);
      ghost var undone := PathsOf(redoStack + [undoStroke]);
      assert strokes[..n - 1] + [undoStroke] == strokes;
      strokes := strokes[..n - 1];
      redoStack := redoStack + [undoStroke];
      assert Model() == Pad(kept, undone, before.isPainting);
    }

    /** The undo button. */
    method Undo() returns (ops: seq<DrawOp>)
      requires Valid()
      modifies this
      ensures Valid()
      ensures old(strokes) == [] ==> strokes == [] && redoStack == old(redoStack)
      ensures old(strokes) != [] ==>
                && strokes + [Last(old(strokes))] == old(strokes)
                && redoStack == old(redoStack) + [Last(old(strokes))]
      ensures isPainting == old(isPainting)
      ensures Model() == Sketch.Undo(old(Model()))
      ensures ops == Session.Output(old(Model()), Session.UndoClick)
    {
      if |strokes| > 0 {
        ghost var before := Model();
        assert before.strokes != [];
        MoveLastToRedo();
        ghost var after := Model();
        ops := Redraw();
        assert Model() == after;
      } else {
        ops := [];
      }
    }

    /** The clear button: the canvas is cleared and both lists emptied. */
    method Clear() returns (ops: seq<DrawOp>)
      requires Valid()
      modifies this
      ensures Valid()
      ensures strokes == [] && redoStack == [] && isPainting == old(isPainting)
      ensures Model() == Sketch.Clear(old(Model()))
      ensures ops == Session.Output(old(Model()), Session.ClearClick)
    {
      ops := ClearCanvas();
      strokes := [];
      redoStack := [];
    }

    /** What pointer-down does to the lists and the flag. */
    method PushNewStroke(x: int, y: int)
      requires Valid()
      modifies this
      ensures Valid()
      ensures isPainting
      ensures |strokes| == |old(strokes)| + 1 && strokes[..|old(strokes)|] == old(strokes)
      ensures fresh(Last(strokes)) && Last(strokes).points == [Point(x, y)]
      ensures redoStack == []
      ensures Model() == Sketch.MouseDown(old(Model()), x, y)
    {
      isPainting := true;
      var s := new Stroke(x, y);
      strokes := strokes + [s];
      redoStack := [];
      PathsOfPush(old(strokes), s);
    }

    /** mousedown at (x, y). */
    method MouseDown(x: int, y: int) returns (ops: seq<DrawOp>)
      requires Valid()
      modifies this
      ensures Valid()
      ensures isPainting
      ensures |strokes| == |old(strokes)| + 1 && strokes[..|old(strokes)|] == old(strokes)
      ensures fresh(Last(strokes)) && Last(strokes).points == [Point(x, y)]
      ensures redoStack == []
      ensures Model() == Sketch.MouseDown(old(Model()), x, y)
      ensures ops == Session.Output(old(Model()), Session.Down(x, y))
    {
      PushNewStroke(x, y);
      ghost var after := Model();
      ops := Redraw();
      assert Model() == after;
    }

    /** getLastStroke()?.drag(x, y) when there is a last stroke. */
    method DragLast(x: int, y: int)
      requires Valid() && strokes != []
      modifies Last(strokes)
      ensures Valid()
      ensures Last(strokes).points == old(Last(strokes).points) + [Point(x, y)]
      ensures var n := |strokes|;
              Model() == old(Model()).(strokes := old(Model()).strokes[..n - 1] + [old(Model()).strokes[n - 1] + [Point(x, y)]])
    {
      var n := |strokes|;
      var last := strokes[n - 1];
      ghost var before := Model();
      forall i | 0 <= i < n ensures before.strokes[i] == strokes[i].points {
        PathsOfAt(strokes, i);
      }
      assert forall i :: 0 <= i < n - 1 ==> strokes[i] != last;
      assert forall j :: 0 <= j < |redoStack| ==> redoStack[j] != last;
      last.Drag(x, y);
      ghost var want := before.strokes[..n - 1] + [before.strokes[n - 1] + [Point(x, y)]];
      forall i | 0 <= i < n ensures PathsOf(strokes)[i] == want[i] {
        PathsOfAt(strokes, i);
      }
      assert PathsOf(strokes) == want;
      assert PathsOf(redoStack) == before.redoStack;
    }

    /** mousemove at (x, y). */
    method MouseMove(x: int, y: int) returns (ops: seq<DrawOp>)
      requires Valid()
      modifies if strokes == [] then {} else {Last(strokes)}
      ensures Valid()
      ensures strokes == old(strokes) && redoStack == old(redoStack) && isPainting == old(isPainting)
      ensures old(isPainting) && strokes != [] ==>
                Last(strokes).points == old(Last(strokes).points) + [Point(x, y)]
      ensures Model() == Sketch.MouseMove(old(Model()), x, y)
      ensures ops == Session.Output(old(Model()), Session.Move(x, y))
    {
      if isPainting {
        var last := GetLastStroke();
        if last != null {
          DragLast(x, y);
        }
        ops := Redraw();
      } else {
        ops := [];
      }
    }

    /** mouseup: painting stops; nothing is drawn. */
    method MouseUp() returns (ops: seq<DrawOp>)
      requires Valid()
      modifies this
      ensures Valid()
      ensures !isPainting && strokes == old(strokes) && redoStack == old(redoStack)
      ensures Model() == Sketch.Release(old(Model()))
      ensures ops == Session.Output(old(Model()), Session.Up)
    {
      isPainting := false;
      ops := [];
    }

    /** mouseout: the same as mouseup. */
    method MouseOut() returns (ops: seq<DrawOp>)
      requires Valid()
      modifies this
      ensures Valid()
      ensures !isPainting && strokes == old(strokes) && redoStack == old(redoStack)
      ensures Model() == Sketch.Release(old(Model()))
      ensures ops == Session.Output(old(Model()), Session.Out)
    {
      isPainting := false;
      ops := [];
    }
  }

  /** Undo followed by redo puts the very same stroke objects back where they
      were. */
  method UndoThenRedoRestores(pad: Sketchpad)
    requires pad.Valid() && pad.strokes != []
    modifies pad
    ensures pad.Valid()
    ensures pad.strokes == old(pad.strokes) && pad.redoStack == old(pad.redoStack)
    ensures pad.isPainting == old(pad.isPainting)
  {
    ghost var top := Last(pad.strokes);
    var undone := pad.Undo();
    ghost var kept := pad.strokes;
    assert kept + [top] == old(pad.strokes);
    assert pad.redoStack == old(pad.redoStack) + [top];
    var redone := pad.Redo();
    assert pad.strokes == kept + [top];
    assert pad.redoStack + [top] == old(pad.redoStack) + [top];
    assert pad.redoStack == (pad.redoStack + [top])[..|pad.redoStack|];
  }
}
