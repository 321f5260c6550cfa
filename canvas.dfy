/** The redraw done on every drawing-changed notification, as an abstract trace
    of the Canvas 2D calls it makes.

    The canvas is 256 by 256. Clearing it fills the whole rectangle with the
    (constant) white fill style; a stroke's display begins a path and then, for
    each point in insertion order, adds a line to the point and strokes the path. */
module Canvas {
  import opened Sketch

  const Width := 256
  const Height := 256

  datatype DrawOp =
    | FillRect(x: int, y: int, w: int, h: int)
    | BeginPath
    | LineTo(at: Point)
    | StrokePath

  /** clearCanvas: one fill of the full canvas. */
  function ClearCanvas(): seq<DrawOp> {
    [FillRect(0, 0, Width, Height)]
  }

  /** The line-to / stroke pairs for the points of one stroke. */
  function Segments(pts: Path): (r: seq<DrawOp>)
    ensures |r| == 2 * |pts|
  {
    if pts == [] then [] else Segments(pts[..|pts| - 1]) + [LineTo(Last(pts)), StrokePath]
  }

  /** What one stroke's display draws. */
  function DisplayOps(pts: Path): (r: seq<DrawOp>)
    ensures |r| == 1 + 2 * |pts| && r[0] == BeginPath
  {
    [BeginPath] + Segments(pts)
  }

  /** Total number of points over a list of strokes. */
  function PointCount(paths: seq<Path>): nat {
    if paths == [] then 0 else PointCount(paths[..|paths| - 1]) + |Last(paths)|
  }

  /** The displays of the strokes, oldest first. */
  function Replay(paths: seq<Path>): (r: seq<DrawOp>)
    ensures |r| == |paths| + 2 * PointCount(paths)
  {
    if paths == [] then [] else Replay(paths[..|paths| - 1]) + DisplayOps(Last(paths))
  }

  /** The drawing-changed listener: clear, then display every committed stroke. */
  function Render(paths: seq<Path>): (r: seq<DrawOp>)
    ensures |r| == 1 + |paths| + 2 * PointCount(paths)
    ensures r[..1] == ClearCanvas()
  {
    ClearCanvas() + Replay(paths)
  }

  /** Point k of a stroke is drawn by the k-th line-to, followed by its stroke. */
  lemma {:induction false} SegmentAt(pts: Path, k: nat)
    requires k < |pts|
    ensures Segments(pts)[2 * k] == LineTo(pts[k])
    ensures Segments(pts)[2 * k + 1] == StrokePath
  {
    var n := |pts|;
    if k < n - 1 {
      SegmentAt(pts[..n - 1], k);
    }
  }

  /** Replaying two lists of strokes one after the other is replaying them joined. */
  lemma {:induction false} ReplayAppend(a: seq<Path>, b: seq<Path>)
    ensures Replay(a + b) == Replay(a) + Replay(b)
  {
    if b == [] {
      assert a + b == a;
    } else {
      var n := |b|;
      var ab := a + b;
      assert ab[..|ab| - 1] == a + b[..n - 1];
      assert Last(ab) == Last(b);
      calc {
        Replay(ab);
        Replay(a + b[..n - 1]) + DisplayOps(Last(b));
        { ReplayAppend(a, b[..n - 1]); }
        Replay(a) + Replay(b[..n - 1]) + DisplayOps(Last(b));
        Replay(a) + Replay(b);
      }
    }
  }

  /** Stroke i is displayed after all earlier strokes and before all later ones. */
  lemma {:induction false} ReplayOrder(paths: seq<Path>, i: nat)
    requires i < |paths|
    ensures Replay(paths) == Replay(paths[..i]) + DisplayOps(paths[i]) + Replay(paths[i + 1..])
  {
    var front, back := paths[..i + 1], paths[i + 1..];
    assert paths == front + back;
    ReplayAppend(front, back);
    assert front[..i] == paths[..i];
    assert Replay(front) == Replay(paths[..i]) + DisplayOps(paths[i]);
  }

  /** A redraw after one more point joins the last stroke is the previous redraw
      with that one segment added at the end. */
  lemma RenderExtendLast(paths: seq<Path>, pt: Point)
    requires paths != []
    ensures Render(paths[..|paths| - 1] + [Last(paths) + [pt]])
            == Render(paths) + [LineTo(pt), StrokePath]
  {
  }
}
