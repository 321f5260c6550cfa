/** The event handlers of src/main.ts as one step function over `Pad`, with what
    each handler draws, and laws about whole runs of events.

    A handler that dispatches drawing-changed is modelled as drawing `Render` of
    the new strokes, synchronously; the clear handler draws only `ClearCanvas`. */
module Session {
  import opened Sketch
  import opened Canvas

  datatype Event =
    | Down(x: int, y: int)   // mousedown on the canvas
    | Move(x: int, y: int)   // mousemove on the canvas
    | Up                     // mouseup
    | Out                    // mouseout
    | UndoClick
    | RedoClick
    | ClearClick

  function Step(p: Pad, e: Event): Pad {
    match e
    case Down(x, y) => MouseDown(p, x, y)
    case Move(x, y) => MouseMove(p, x, y)
    case Up => Release(p)
    case Out => Release(p)
    case UndoClick => Undo(p)
    case RedoClick => Redo(p)
    case ClearClick => Clear(p)
  }

  /** The drawing calls a handler makes, given the state it starts from: a full
      redraw exactly when it dispatches drawing-changed, the plain clear for the
      clear button, and nothing otherwise. */
  function Output(p: Pad, e: Event): (r: seq<DrawOp>)
    ensures r == [] <==>
              || e.Up? || e.Out?
              || (e.Move? && !p.isPainting)
              || (e.UndoClick? && p.strokes == [])
              || (e.RedoClick? && p.redoStack == [])
  {
    match e
    case Down(_, _) => Render(Step(p, e).strokes)
    case Move(_, _) => if p.isPainting then Render(Step(p, e).strokes) else []
    case Up => []
    case Out => []
    case UndoClick => if p.strokes != [] then Render(Step(p, e).strokes) else []
    case RedoClick => if p.redoStack != [] then Render(Step(p, e).strokes) else []
    case ClearClick => ClearCanvas()
  }

  function Run(p: Pad, es: seq<Event>): Pad
    decreases |es|
  {
    if es == [] then p else Run(Step(p, es[0]), es[1..])
  }

  /** Every drawing a handler makes starts with a fill of the whole canvas, so the
      picture on the canvas is that of the latest handler that drew anything. */
  function Repaint(shown: seq<DrawOp>, ops: seq<DrawOp>): seq<DrawOp> {
    if ops == [] then shown else ops
  }

  /** The picture on the canvas after a run of events, starting from `shown`. */
  function Picture(shown: seq<DrawOp>, p: Pad, es: seq<Event>): seq<DrawOp>
    decreases |es|
  {
    if es == [] then shown else Picture(Repaint(shown, Output(p, es[0])), Step(p, es[0]), es[1..])
  }

  /** Every nonempty drawing a handler makes starts by clearing the canvas. */
  lemma OutputStartsWithClear(p: Pad, e: Event)
    requires Output(p, e) != []
    ensures Output(p, e)[..1] == ClearCanvas()
  {
  }

  /** A handler leaves the canvas showing the redraw of the new strokes, provided
      it showed the redraw of the old ones. */
  lemma StepKeepsCanvasCurrent(p: Pad, e: Event)
    ensures Repaint(Render(p.strokes), Output(p, e)) == Render(Step(p, e).strokes)
  {
  }

  /** From a canvas that shows the model, every run of events keeps the canvas
      equal to the redraw of the committed strokes. */
  lemma {:induction false} RunKeepsCanvasCurrent(p: Pad, es: seq<Event>)
    ensures Picture(Render(p.strokes), p, es) == Render(Run(p, es).strokes)
    decreases |es|
  {
    if es != [] {
      StepKeepsCanvasCurrent(p, es[0]);
      RunKeepsCanvasCurrent(Step(p, es[0]), es[1..]);
    }
  }

  /** At page load the canvas has just been cleared, which is the redraw of no
      strokes; hence after any run of events it shows the committed strokes. */
  lemma CanvasShowsStrokes(es: seq<Event>)
    ensures Picture(ClearCanvas(), Initial, es) == Render(Run(Initial, es).strokes)
  {
    assert Render(Initial.strokes) == ClearCanvas();
    RunKeepsCanvasCurrent(Initial, es);
  }

  predicate NoUndo(es: seq<Event>) {
    forall i :: 0 <= i < |es| ==> !es[i].UndoClick?
  }

  /** Redo invalidation: with nothing to redo, no run of events without an undo
      ever gives redo anything to bring back. */
  lemma {:induction false} RedoStaysEmpty(p: Pad, es: seq<Event>)
    requires p.redoStack == []
    requires NoUndo(es)
    ensures Run(p, es).redoStack == []
    decreases |es|
  {
    if es != [] {
      assert !es[0].UndoClick?;
      assert NoUndo(es[1..]) by {
        forall i | 0 <= i < |es[1..]| ensures !es[1..][i].UndoClick? {
          assert es[1..][i] == es[i + 1];
        }
      }
      RedoStaysEmpty(Step(p, es[0]), es[1..]);
    }
  }

  /** After a pointer-down, redo is a no-op until some undo has happened. */
  lemma RedoAfterDownIsNoOp(p: Pad, x: int, y: int, es: seq<Event>)
    requires NoUndo(es)
    ensures var q := Run(MouseDown(p, x, y), es); Redo(q) == q
  {
    RedoStaysEmpty(MouseDown(p, x, y), es);
  }

  predicate Conserving(e: Event) {
    !e.Down? && !e.ClearClick?
  }

  /** Only pointer-down adds a stroke and only clear removes any: every other
      event keeps the total number of committed and undone strokes. */
  lemma {:induction false} RunConservesStrokeCount(p: Pad, es: seq<Event>)
    requires forall i :: 0 <= i < |es| ==> Conserving(es[i])
    ensures |Run(p, es).strokes| + |Run(p, es).redoStack| == |p.strokes| + |p.redoStack|
    decreases |es|
  {
    if es != [] {
      assert Conserving(es[0]);
      assert forall i :: 0 <= i < |es[1..]| ==> Conserving(es[1..][i]) by {
        forall i | 0 <= i < |es[1..]| ensures Conserving(es[1..][i]) {
          assert es[1..][i] == es[i + 1];
        }
      }
      RunConservesStrokeCount(Step(p, es[0]), es[1..]);
    }
  }

  predicate AllMoves(es: seq<Event>) {
    forall i :: 0 <= i < |es| ==> es[i].Move?
  }

  /** The points a run of moves visits, in order. */
  function MovePoints(es: seq<Event>): (r: Path)
    requires AllMoves(es)
    ensures |r| == |es|
    decreases |es|
  {
    if es == [] then [] else [Point(es[0].x, es[0].y)] + MovePoints(es[1..])
  }

  /** A drag: while painting, a run of moves appends its points, in order, to the
      last stroke and changes nothing else. */
  lemma {:induction false} DragExtendsLastStroke(p: Pad, es: seq<Event>)
    requires p.isPainting && p.strokes != []
    requires AllMoves(es)
    ensures var n := |p.strokes|;
            Run(p, es) == Pad(p.strokes[..n - 1] + [p.strokes[n - 1] + MovePoints(es)], p.redoStack, true)
    decreases |es|
  {
    var n := |p.strokes|;
    if es == [] {
      assert MovePoints(es) == [] && p.strokes[n - 1] + [] == p.strokes[n - 1];
      assert p.strokes[..n - 1] + [p.strokes[n - 1]] == p.strokes;
    } else {
      var pt := Point(es[0].x, es[0].y);
      var q := MouseMove(p, pt.x, pt.y);
      assert Step(p, es[0]) == q;
      assert q.isPainting && q.redoStack == p.redoStack && |q.strokes| == n;
      assert q.strokes[..n - 1] == p.strokes[..n - 1];
      assert q.strokes[n - 1] == p.strokes[n - 1] + [pt];
      assert AllMoves(es[1..]) by {
        forall i | 0 <= i < |es[1..]| ensures es[1..][i].Move? {
          assert es[1..][i] == es[i + 1];
        }
      }
      DragExtendsLastStroke(q, es[1..]);
      assert MovePoints(es) == [pt] + MovePoints(es[1..]);
      assert q.strokes[n - 1] + MovePoints(es[1..]) == p.strokes[n - 1] + MovePoints(es);
    }
  }

  predicate PointerOnly(e: Event) {
    e.Move? || e.Up? || e.Out?
  }

  /** A released stroke is final: once painting has stopped, pointer moves,
      pointer-ups and pointer-leaves change nothing. */
  lemma {:induction false} ReleasedStaysFinal(p: Pad, es: seq<Event>)
    requires !p.isPainting
    requires forall i :: 0 <= i < |es| ==> PointerOnly(es[i])
    ensures Run(p, es) == p
    decreases |es|
  {
    if es != [] {
      assert PointerOnly(es[0]);
      assert forall i :: 0 <= i < |es[1..]| ==> PointerOnly(es[1..][i]) by {
        forall i | 0 <= i < |es[1..]| ensures PointerOnly(es[1..][i]) {
          assert es[1..][i] == es[i + 1];
        }
      }
      ReleasedStaysFinal(Step(p, es[0]), es[1..]);
    }
  }

  /** Only the last stroke is ever modified: every stroke below the last one that
      survives an event is unchanged by it. */
  lemma OnlyLastStrokeChanges(p: Pad, e: Event, i: nat)
    requires i < |p.strokes| - 1 && i < |Step(p, e).strokes|
    ensures Step(p, e).strokes[i] == p.strokes[i]
  {
  }

  /** Two strokes, an undo, a redo and a clear. */
  lemma UndoRedoClearScenario()
    ensures var a, b := [Point(1, 1), Point(2, 2)], [Point(5, 5)];
            var drawn := Release(Step(Release(Step(Step(Initial, Down(1, 1)), Move(2, 2))), Down(5, 5)));
            && drawn == Pad([a, b], [], false)
            && Step(drawn, UndoClick) == Pad([a], [b], false)
            && Step(Step(drawn, UndoClick), RedoClick) == Pad([a, b], [], false)
            && Step(Step(Step(drawn, UndoClick), RedoClick), ClearClick) == Pad([], [], false)
  {
    var a, b := [Point(1, 1), Point(2, 2)], [Point(5, 5)];
    var s1 := Step(Initial, Down(1, 1));
    assert s1 == Pad([[Point(1, 1)]], [], true);
    var s2 := Step(s1, Move(2, 2));
    assert s2.strokes == [] + [[Point(1, 1)] + [Point(2, 2)]];
    assert [Point(1, 1)] + [Point(2, 2)] == a;
    assert [] + [a] == [a];
    assert s2 == Pad([a], [], true);
    var s3 := Step(Release(s2), Down(5, 5));
    assert s3 == Pad([a] + [b], [], true);
    assert [a] + [b] == [a, b];
    var drawn := Release(s3);
    assert drawn == Pad([a, b], [], false);
    var s4 := Step(drawn, UndoClick);
    assert [a, b][..1] == [a];
    assert s4 == Pad([a], [] + [b], false);
    assert [] + [b] == [b];
    var s5 := Step(s4, RedoClick);
    assert [b][..0] == [];
    assert s5 == Pad([a] + [b], [], false);
    assert Step(s5, ClearClick) == Pad([], [], false);
  }

  /** Pointer-down, a move, then leaving the canvas before any pointer-up: the stroke
      keeps the two recorded points and later moves add nothing. */
  lemma LeaveFinalizesScenario()
    ensures Step(Step(Step(Step(Initial, Down(10, 10)), Move(20, 20)), Out), Move(30, 30))
            == Pad([[Point(10, 10), Point(20, 20)]], [], false)
  {
    var s1 := Step(Initial, Down(10, 10));
    assert s1 == Pad([[Point(10, 10)]], [], true);
    var c := [Point(10, 10), Point(20, 20)];
    assert Step(s1, Move(20, 20)).strokes == [] + [[Point(10, 10)] + [Point(20, 20)]];
    assert [Point(10, 10)] + [Point(20, 20)] == c;
    assert [] + [c] == [c];
  }
}
